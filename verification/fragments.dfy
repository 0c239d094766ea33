/**
 * Splitting the request text into fragments and typing fragment i into
 * input field i.
 */
module Fragments {

  /** The fragment delimiter of the request text. */
  const Delimiter: char := '|'

  /**
   * `s.split(sep)` for a one-character separator: the maximal runs of
   * `s` between separators, in order. There is always at least one part
   * (an empty `s` gives one empty part).
   */
  function Split(s: string, sep: char): (parts: seq<string>)
    ensures |parts| >= 1
    ensures forall i :: 0 <= i < |parts| ==> sep !in parts[i]
  {
    if s == [] then [[]]
    else
      var rest := Split(s[1..], sep);
      if s[0] == sep then [[]] + rest
      else [[s[0]] + rest[0]] + rest[1..]
  }

  /** `parts.join(sep)`. */
  function Join(parts: seq<string>, sep: char): string {
    if |parts| == 0 then []
    else if |parts| == 1 then parts[0]
    else parts[0] + [sep] + Join(parts[1..], sep)
  }

  /** Joining the fragments with the delimiter gives back the text. */
  lemma {:induction false} JoinSplit(s: string, sep: char)
    ensures Join(Split(s, sep), sep) == s
  {
    if s != [] {
      var rest := Split(s[1..], sep);
      JoinSplit(s[1..], sep);
      if s[0] == sep {
        assert Split(s, sep) == [[]] + rest;
        assert ([[]] + rest)[1..] == rest;
      } else {
        var parts := Split(s, sep);
        assert parts == [[s[0]] + rest[0]] + rest[1..];
        if |rest| == 1 {
          assert parts == [[s[0]] + rest[0]];
        } else {
          assert parts[1..] == rest[1..];
          assert Join(rest, sep) == rest[0] + [sep] + Join(rest[1..], sep);
        }
      }
    }
  }

  /** Splitting a separator-free prefix onto the front of `t` extends `t`'s first part. */
  lemma {:induction false} SplitFreePrefix(a: string, t: string, sep: char)
    requires sep !in a
    ensures Split(a + t, sep) == [a + Split(t, sep)[0]] + Split(t, sep)[1..]
  {
    if a != [] {
      assert (a + t)[1..] == a[1..] + t;
      SplitFreePrefix(a[1..], t, sep);
      assert [a[0]] + (a[1..] + Split(t, sep)[0]) == a + Split(t, sep)[0];
    } else {
      var parts := Split(t, sep);
      assert a + t == t && a + parts[0] == parts[0];
      assert parts == [parts[0]] + parts[1..];
    }
  }

  /**
   * Conversely, fragments that do not contain the separator are recovered
   * exactly by splitting their join.
   */
  lemma {:induction false} SplitJoin(parts: seq<string>, sep: char)
    requires |parts| >= 1
    requires forall i :: 0 <= i < |parts| ==> sep !in parts[i]
    ensures Split(Join(parts, sep), sep) == parts
  {
    if |parts| == 1 {
      SplitFreePrefix(parts[0], [], sep);
      assert parts[0] + [] == parts[0];
    } else {
      var tail := Join(parts[1..], sep);
      SplitJoin(parts[1..], sep);
      assert Split([sep] + tail, sep) == [[]] + Split(tail, sep);
      assert Join(parts, sep) == parts[0] + ([sep] + tail);
      SplitFreePrefix(parts[0], [sep] + tail, sep);
      assert parts[0] + [] == parts[0];
    }
  }

  /**
   * Typing into a field after a triple click: the click selects the old
   * value and the first keystroke replaces it. An empty fragment types
   * nothing, so the old value, still selected, stays. Fragments are taken
   * to hold no line break or tab, which typing turns into Enter and Tab.
   */
  function TypeOver(current: string, fragment: string): string {
    if fragment == [] then current else fragment
  }

  /**
   * The fill loop from position `i` on: it runs while both a fragment and
   * a field remain, so the shorter list bounds it.
   */
  function FillFrom(fields: seq<string>, parts: seq<string>, i: nat): (r: seq<string>)
    requires i <= |fields|
    ensures |r| == |fields|
    ensures forall k :: 0 <= k < i ==> r[k] == fields[k]
    ensures forall k :: i <= k < |fields| && k < |parts| ==> r[k] == TypeOver(fields[k], parts[k])
    ensures forall k :: i <= k < |fields| && |parts| <= k ==> r[k] == fields[k]
    decreases |fields| - i
  {
    if i < |parts| && i < |fields| then
      FillFrom(fields[i := TypeOver(fields[i], parts[i])], parts, i + 1)
    else
      fields
  }

  /**
   * The fields after the fill loop: field k receives fragment k for every
   * k below both lengths; fields with no fragment keep their value, and
   * fragments with no field are dropped.
   */
  function Fill(fields: seq<string>, parts: seq<string>): (r: seq<string>)
    ensures |r| == |fields|
    ensures forall k :: 0 <= k < |fields| && k < |parts| && parts[k] != [] ==> r[k] == parts[k]
    ensures forall k :: 0 <= k < |fields| && k < |parts| && parts[k] == [] ==> r[k] == fields[k]
    ensures forall k :: |parts| <= k < |fields| ==> r[k] == fields[k]
  {
    FillFrom(fields, parts, 0)
  }

  /** Fragments beyond the last field make no difference. */
  lemma ExtraFragmentsDropped(fields: seq<string>, parts: seq<string>)
    requires |parts| > |fields|
    ensures Fill(fields, parts) == Fill(fields, parts[..|fields|])
  {
    var a, b := Fill(fields, parts), Fill(fields, parts[..|fields|]);
    assert forall k :: 0 <= k < |fields| ==> a[k] == b[k];
  }

  /** Three fragments, two empty fields: the first two fill them, the third is dropped. */
  lemma ThreeFragmentsTwoFields()
    ensures Split("A|B|C", Delimiter) == ["A", "B", "C"]
    ensures Fill(["", ""], Split("A|B|C", Delimiter)) == ["A", "B"]
  {
    SplitJoin(["A", "B", "C"], Delimiter);
    assert Join(["A", "B", "C"], Delimiter) == "A|B|C";
    var r := Fill(["", ""], ["A", "B", "C"]);
    assert r[0] == "A" && r[1] == "B";
  }

  /** One fragment, three empty fields: the last two stay empty. */
  lemma OneFragmentThreeFields()
    ensures Fill(["", "", ""], Split("OnlyOne", Delimiter)) == ["OnlyOne", "", ""]
  {
    SplitJoin(["OnlyOne"], Delimiter);
    var r := Fill(["", "", ""], ["OnlyOne"]);
    assert r[0] == "OnlyOne" && r[1] == "" && r[2] == "";
  }
}
