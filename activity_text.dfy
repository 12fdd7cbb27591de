/** The descriptions the serializers write into Activity rows: "created",
    "updated with ..." (one line per changed field, joined with ", ") and
    "status updated to ...". */
module ActivityText {
  import opened Strings
  import opened Models
  import opened Changes

  /** `f"{entity} '{desc}' created"`. */
  function CreatedText(entity: string, desc: string): string {
    entity + " '" + desc + "' created"
  }

  /** `f"Field '{attr}' changed from '{old}' to '{new}'"`. */
  function ChangeLine(c: Change): string {
    "Field '" + AttrName(c.attr) + "' changed from '" + ValueStr(c.oldValue) + "' to '" + ValueStr(c.newValue) + "'"
  }

  /** The list `activity_description` as the serializers build it. */
  function ChangeLines(changes: seq<Change>): (lines: seq<string>)
    ensures |lines| == |changes|
    ensures forall i :: 0 <= i < |changes| ==> lines[i] == ChangeLine(changes[i])
  {
    seq(|changes|, i requires 0 <= i < |changes| => ChangeLine(changes[i]))
  }

  /** The loop that appends one line per changed attribute. */
  method BuildChangeLines(changes: seq<Change>) returns (lines: seq<string>)
    ensures lines == ChangeLines(changes)
  {
    lines := [];
    var i := 0;
    while i < |changes|
      invariant 0 <= i <= |changes|
      invariant |lines| == i
      invariant forall k :: 0 <= k < i ==> lines[k] == ChangeLine(changes[k])
    {
      lines := lines + [ChangeLine(changes[i])];
      i := i + 1;
    }
  }

  /** `f"{entity} '{desc}' updated with {', '.join(lines)}"`. */
  function UpdatedText(entity: string, desc: string, lines: seq<string>): string {
    entity + " '" + desc + "' updated with " + Join(", ", lines)
  }

  /** `f"{entity} '{desc}' status updated to '{status}'"`. */
  function StatusText(entity: string, desc: string, status: string): string {
    entity + " '" + desc + "' status updated to '" + status + "'"
  }

  /** Two creations of the same entity are told apart by their texts exactly
      when their descriptions differ. */
  lemma CreatedTextInjective(entity: string, d1: string, d2: string)
    requires CreatedText(entity, d1) == CreatedText(entity, d2)
    ensures d1 == d2
  {
    var t1, t2 := CreatedText(entity, d1), CreatedText(entity, d2);
    assert |d1| == |d2|;
    assert d1 == t1[|entity| + 2..|entity| + 2 + |d1|];
    assert d2 == t2[|entity| + 2..|entity| + 2 + |d2|];
  }

  /** An update that changed nothing still has a text, and it ends in
      "updated with " with nothing after it. */
  lemma NoChangeText(entity: string, desc: string)
    ensures var t := UpdatedText(entity, desc, ChangeLines([]));
      |t| >= 13 && t[|t| - 13..] == "updated with "
  {
    var head := entity + " '" + desc + "' ";
    assert ChangeLines([]) == [] && Join(", ", []) == "";
    assert UpdatedText(entity, desc, ChangeLines([])) == head + "updated with ";
  }

  /** The text of a status update ends with the new status in quotes. */
  lemma StatusTextEnds(entity: string, desc: string, status: string)
    ensures var t := StatusText(entity, desc, status);
      |t| >= |status| + 20 && t[|t| - |status| - 20..] == "status updated to '" + status + "'"
  {
    var t := StatusText(entity, desc, status);
    assert t == (entity + " '" + desc + "' ") + ("status updated to '" + status + "'");
  }

  /** Every changed attribute has its line somewhere in the update text. */
  lemma UpdatedTextMentions(entity: string, desc: string, changes: seq<Change>, k: nat)
    requires k < |changes|
    ensures Contains(UpdatedText(entity, desc, ChangeLines(changes)), ChangeLine(changes[k]))
  {
    var lines := ChangeLines(changes);
    var a := JoinHasPart(", ", lines, k);
    var prefix := entity + " '" + desc + "' updated with ";
    var t := UpdatedText(entity, desc, lines);
    assert t == prefix + Join(", ", lines);
    MatchAtShift(prefix, Join(", ", lines), lines[k], a);
    ContainsWitness(t, lines[k], |prefix| + a);
  }

  /** A match stays a match, further on, behind a prefix. */
  lemma MatchAtShift(prefix: string, s: string, pat: string, a: nat)
    requires MatchAt(s, pat, a)
    ensures MatchAt(prefix + s, pat, |prefix| + a)
  {
    assert (prefix + s)[|prefix| + a..|prefix| + a + |pat|] == s[a..a + |pat|];
  }

  /** Where a part of a joined text starts. */
  lemma {:induction false} JoinHasPart(sep: string, parts: seq<string>, k: nat) returns (a: nat)
    requires k < |parts|
    ensures MatchAt(Join(sep, parts), parts[k], a)
  {
    if |parts| == 1 {
      a := 0;
    } else if k == 0 {
      a := 0;
      var j := Join(sep, parts);
      assert j == parts[0] + (sep + Join(sep, parts[1..]));
      assert j[..|parts[0]|] == parts[0];
    } else {
      var b := JoinHasPart(sep, parts[1..], k - 1);
      var head := parts[0] + sep;
      var rest := Join(sep, parts[1..]);
      assert Join(sep, parts) == head + rest;
      a := |head| + b;
      assert (head + rest)[a..a + |parts[k]|] == rest[b..b + |parts[k]|];
    }
  }
}
