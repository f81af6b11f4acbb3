/** `divider` of panes/utils.py: a blank line, the gutter-indented title, a rule
    of '=' as wide as asked, and the message when there is one. */
module Divider {
  import opened Text

  /** The lines `divider` prints, in order. A message is printed only when it
      is non-empty; a width that is not positive gives an empty rule. */
  function Divider(title: string, msg: string, gutter: string, width: int): (lines: seq<string>)
    ensures |lines| == (if msg == "" then 3 else 4)
    ensures lines[0] == "" && lines[1] == gutter + title
    ensures |lines[2]| == (if width > 0 then width else 0)
    ensures forall k | 0 <= k < |lines[2]| :: lines[2][k] == '='
    ensures msg != "" ==> lines[3] == msg
  {
    var head := ["", gutter + title, Repeat('=', width)];
    if msg != "" then head + [msg] else head
  }
}
