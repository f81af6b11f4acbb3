/** The permission classifiers of panes/utils.py: whether a directory is open to
    every user (`is_rx`), and the public/private label built on it
    (`public_or_private`). The stat call and the directory listing are inputs:
    the mode word and the number of entries. */
module Permissions {
  import opened Text
  import opened Wrappers

  /** The character that shows one octal digit. */
  function OctalChar(d: nat): (c: char)
    requires d < 8
    ensures '0' <= c <= '7' && c as int - '0' as int == d
  {
    (d + '0' as int) as char
  }

  /** The octal digits of `n`, most significant first, without leading zeros. */
  function OctalDigits(n: nat): (s: string)
    ensures |s| >= 1 && forall k | 0 <= k < |s| :: '0' <= s[k] <= '7'
    ensures s[|s| - 1] == OctalChar(n % 8)
  {
    if n < 8 then [OctalChar(n)] else OctalDigits(n / 8) + [OctalChar(n % 8)]
  }

  /** Python's `oct(n)` for a non-negative integer: "0o" and the octal digits. */
  function Oct(n: nat): string {
    "0o" + OctalDigits(n)
  }

  /** `is_rx`: the last character of the mode written in octal is 5 (r-x) or
      7 (rwx). That character is the permission digit of "other" users. */
  function IsRx(mode: nat): (b: bool)
    ensures b <==> mode % 8 == 5 || mode % 8 == 7
  {
    var o := Oct(mode);
    o[|o| - 1] == '5' || o[|o| - 1] == '7'
  }

  /** The read bit (S_IROTH, 4) and the execute bit (S_IXOTH, 1) of "other"
      are both set exactly when `is_rx` holds; the write bit (S_IWOTH, 2) is
      irrelevant. */
  lemma RxIsOtherReadAndExecute(mode: nat)
    ensures IsRx(mode) <==> (mode / 4) % 2 == 1 && mode % 2 == 1
  {
    var high, low := mode / 8, mode % 8;
    assert mode == 8 * high + low;
    assert mode / 4 == 2 * high + low / 4 by {
      assert mode == 4 * (2 * high + low / 4) + low % 4;
    }
    assert (mode / 4) % 2 == (low / 4) % 2;
    assert mode % 2 == low % 2 by {
      assert mode == 2 * (4 * high + low / 2) + low % 2;
    }
  }

  /** Owner and group bits, file-type bits and everything above the last octal
      digit never change the verdict. */
  lemma RxIgnoresOwnerAndGroup(mode: nat, high: nat)
    ensures IsRx(mode % 8 + 8 * high) == IsRx(mode)
  {
    assert (mode % 8 + 8 * high) % 8 == mode % 8;
  }

  /** `public_or_private`: a directory open to everyone is labelled public
      with its entry count, any other path private. */
  function PublicOrPrivate(path: string, mode: nat, entries: nat): (r: string)
    ensures IsRx(mode) ==> r == path + ": public (" + NatToString(entries) + " items)"
    ensures !IsRx(mode) ==> r == path + ": private"
  {
    if IsRx(mode) then path + ": public (" + NatToString(entries) + " items)"
    else path + ": private"
  }

  /** What a label says about a path. */
  datatype Visibility = Public(items: nat) | Private

  /** Reads a label for `path` back: the inverse of `PublicOrPrivate`. */
  function ReadLabel(path: string, text: string): Option<Visibility> {
    if |text| < |path| || text[..|path|] != path then None
    else
      var rest := text[|path|..];
      if rest == ": private" then Some(Private)
      else if |rest| > |": public (" + " items)"|
        && rest[..|": public ("|] == ": public ("
        && rest[|rest| - |" items)"|..] == " items)"
      then
        var count := rest[|": public ("|..|rest| - |" items)"|];
        if AllDigits(count) then Some(Public(ParseNat(count))) else None
      else None
  }

  /** The label states the visibility exactly: reading it back recovers public
      with the entry count when `is_rx` holds and private otherwise. */
  lemma ReadPublicOrPrivate(path: string, mode: nat, entries: nat)
    ensures ReadLabel(path, PublicOrPrivate(path, mode, entries))
      == if IsRx(mode) then Some(Public(entries)) else Some(Private)
  {
    var text := PublicOrPrivate(path, mode, entries);
    assert text[..|path|] == path;
    var rest := text[|path|..];
    if IsRx(mode) {
      var digits := NatToString(entries);
      assert rest == ": public (" + digits + " items)";
      assert rest != ": private" by { assert rest[3] == 'u'; }
      assert rest[|": public ("|..|rest| - |" items)"|] == digits;
      ParseNatToString(entries);
    } else {
      assert rest == ": private";
    }
  }

  /** A label ends in " items)" exactly when the path is open to everyone. */
  lemma PublicExactlyWhenRx(path: string, mode: nat, entries: nat)
    ensures var r := PublicOrPrivate(path, mode, entries);
      (|r| >= 7 && r[|r| - 7..] == " items)") <==> IsRx(mode)
  {
    var r := PublicOrPrivate(path, mode, entries);
    if IsRx(mode) {
      assert r[|r| - 7..] == " items)";
    } else {
      assert r[|r| - 1] == 'e';
    }
  }
}
