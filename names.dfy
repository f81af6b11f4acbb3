/** `remove_middle_initial` of panes/utils.py: drops a middle initial from a
    full name. The loop over the interior tokens returns during its first
    pass, so only the second token is ever looked at and at most one token is
    removed. */
module Names {
  import opened Text

  /** A token read as a middle initial: a single character, or two characters
      ending in a period. */
  predicate IsInitial(token: string) {
    (|token| > 0 && token[|token| - 1] == '.' && |token| == 2) || |token| == 1
  }

  lemma RemovingKeepsWords(parts: seq<string>, i: nat)
    requires AllWords(parts) && i < |parts|
    ensures AllWords(parts[..i] + parts[i + 1..])
  {
    var rest := parts[..i] + parts[i + 1..];
    forall k | 0 <= k < |rest|
      ensures IsWord(rest[k])
    {
      if k < i {
        assert rest[k] == parts[k];
      } else {
        assert rest[k] == parts[k + 1];
      }
    }
  }

  /** The tokens left after the first pass of the loop: the second token is
      dropped when it is an initial. */
  function AfterFirstPass(parts: seq<string>): seq<string>
    requires |parts| > 2
  {
    if IsInitial(parts[1]) then [parts[0]] + parts[2..] else parts
  }

  /** Joining what the first pass leaves and splitting it again gives back the
      same tokens; the first and the last token are kept and at most one
      token, the second, is dropped. */
  lemma AfterFirstPassTokens(parts: seq<string>)
    requires AllWords(parts) && |parts| > 2
    ensures var kept := AfterFirstPass(parts);
      && Split(Join(" ", kept)) == kept
      && |parts| - 1 <= |kept| <= |parts|
      && kept[0] == parts[0]
      && kept[|kept| - 1] == parts[|parts| - 1]
      && (|kept| == |parts| <==> !IsInitial(parts[1]))
  {
    var kept := AfterFirstPass(parts);
    if IsInitial(parts[1]) {
      RemovingKeepsWords(parts, 1);
      assert parts[..1] + parts[2..] == kept;
    }
    SplitJoin(kept);
  }

  /** `remove_middle_initial`: a name of at most two tokens comes back exactly
      as given, whitespace and all; a longer one comes back as the tokens the
      first pass of the loop leaves, joined by single spaces. */
  method RemoveMiddleInitial(fullName: string) returns (r: string)
    ensures |Split(fullName)| <= 2 ==> r == fullName
    ensures |Split(fullName)| > 2 ==> r == Join(" ", AfterFirstPass(Split(fullName)))
  {
    var parts := Split(fullName);
    var cnt := |parts|;
    if cnt > 2 {
      ghost var original := parts;
      for i := 1 to cnt - 1
        invariant i == 1
        invariant parts == original
      {
        if IsInitial(parts[i]) {
          assert parts[..i] + parts[i + 1..] == [parts[0]] + parts[2..];
          parts := parts[..i] + parts[i + 1..];
        }
        return Join(" ", parts);
      }
      assert false;
    }
    return fullName;
  }

  /** Tokens made of visible ASCII characters survive `' '.join` and
      `str.split()` unchanged. */
  lemma VisibleTokensSplit(ws: seq<string>)
    requires forall i | 0 <= i < |ws| :: ws[i] != [] && forall k | 0 <= k < |ws[i]| :: 0x21 <= ws[i][k] as int <= 0x7E
    ensures Split(Join(" ", ws)) == ws
  {
    forall i | 0 <= i < |ws|
      ensures IsWord(ws[i])
    {
      VisibleAsciiIsWord(ws[i]);
    }
    SplitJoin(ws);
  }

  /** Three visible tokens joined by single spaces split back into the three. */
  lemma SplitThree(name: string, ws: seq<string>)
    requires |ws| == 3 && name == ws[0] + " " + (ws[1] + " " + ws[2])
    requires forall i | 0 <= i < 3 :: ws[i] != [] && forall k | 0 <= k < |ws[i]| :: 0x21 <= ws[i][k] as int <= 0x7E
    ensures Split(name) == ws
  {
    assert Join(" ", ws[2..]) == ws[2];
    assert Join(" ", ws[1..]) == ws[1] + " " + ws[2] by { assert ws[1..][1..] == ws[2..]; }
    VisibleTokensSplit(ws);
  }

  lemma SampleName()
    ensures "John Q. Public" == "John" + " " + ("Q." + " " + "Public")
  {
  }

  /** "John Q. Public": the initial in second place is dropped. */
  lemma SecondTokenInitial(name: string)
    requires name == "John Q. Public"
    ensures |Split(name)| == 3
    ensures AfterFirstPass(Split(name)) == ["John", "Public"]
  {
    var ws := ["John", "Q.", "Public"];
    SampleName();
    SplitThree(name, ws);
    assert IsInitial(ws[1]);
  }

  lemma LaterSampleName()
    ensures "Ann Lee B." == "Ann" + " " + ("Lee" + " " + "B.")
  {
  }

  /** "Ann Lee B.": only the second token is looked at, so an initial in any
      later place stays. */
  lemma LaterInitialKept(name: string)
    requires name == "Ann Lee B."
    ensures |Split(name)| == 3
    ensures AfterFirstPass(Split(name)) == ["Ann", "Lee", "B."]
  {
    var ws := ["Ann", "Lee", "B."];
    LaterSampleName();
    SplitThree(name, ws);
    assert !IsInitial(ws[1]);
  }
}
