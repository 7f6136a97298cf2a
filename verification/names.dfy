/** Class names as the library displays them.

    `Demodulize` is ActiveSupport's `demodulize`: it drops everything up to and
    including the last `::` of a qualified constant name. `Join` is Ruby's
    `Array#join`.
 */
module Names {

  /** A `::` separator starts at position `j` of `s`. */
  predicate SepAt(s: string, j: int) {
    0 <= j && j + 1 < |s| && s[j] == ':' && s[j + 1] == ':'
  }

  ghost predicate HasSep(s: string) {
    exists j :: SepAt(s, j)
  }

  /** Position of the last `::` in `s`, or -1 when there is none. */
  function LastSep(s: string): (r: int)
    ensures -1 <= r
    ensures r >= 0 ==> SepAt(s, r)
    ensures forall j :: r < j ==> !SepAt(s, j)
  {
    if |s| < 2 then -1
    else if s[|s| - 2] == ':' && s[|s| - 1] == ':' then |s| - 2
    else
      var r := LastSep(s[..|s| - 1]);
      assert forall j :: SepAt(s, j) && j + 2 < |s| ==> SepAt(s[..|s| - 1], j);
      r
  }

  function Demodulize(qname: string): (r: string)
    ensures !HasSep(r)
    ensures !HasSep(qname) ==> r == qname
  {
    var i := LastSep(qname);
    if i < 0 then qname
    else
      var r := qname[i + 2..];
      assert forall j :: SepAt(r, j) ==> SepAt(qname, j + i + 2);
      r
  }

  /** The short name is a suffix of the qualified name. */
  lemma DemodulizeSuffix(qname: string)
    ensures var r := Demodulize(qname);
            |r| <= |qname| && r == qname[|qname| - |r|..]
  {
  }

  /** With a `::` in the name, exactly the text up to and including the last
      `::` is removed: the short name starts right after a separator and no
      separator starts later. */
  lemma DemodulizeDropsThroughLastSep(qname: string)
    requires HasSep(qname)
    ensures var r := Demodulize(qname);
            && |r| + 2 <= |qname|
            && SepAt(qname, |qname| - |r| - 2)
            && forall j :: |qname| - |r| - 2 < j ==> !SepAt(qname, j)
  {
    var i := LastSep(qname);
    assert i >= 0;
  }

  /** A qualified name is its prefix, the last `::`, and its short name. */
  lemma DemodulizeSplits(qname: string)
    requires HasSep(qname)
    ensures var r := Demodulize(qname);
            var k := |qname| - |r| - 2;
            0 <= k && qname == qname[..k] + "::" + r
  {
    var r := Demodulize(qname);
    var k := |qname| - |r| - 2;
    DemodulizeDropsThroughLastSep(qname);
    assert qname[k..k + 2] == "::";
    assert qname == qname[..k] + qname[k..k + 2] + qname[k + 2..];
  }

  /** `"Shape::Circle"` and `"A::B::Circle"` shorten to `"Circle"`, and a
      run of three colons keeps the last character after the final pair. */
  lemma DemodulizeExamples()
    ensures Demodulize("Shape::Circle") == "Circle"
    ensures Demodulize("A::B::Circle") == "Circle"
    ensures Demodulize("A:::B") == "B"
  {
    assert LastSep("Shape::Circle") == 5 by {
      assert SepAt("Shape::Circle", 5);
    }
    assert LastSep("A::B::Circle") == 4 by {
      assert SepAt("A::B::Circle", 4);
    }
    assert LastSep("A:::B") == 2 by {
      assert SepAt("A:::B", 2);
    }
  }

  /** Applying `Demodulize` to its own result changes nothing. */
  lemma DemodulizeIdempotent(qname: string)
    ensures Demodulize(Demodulize(qname)) == Demodulize(qname)
  {
  }

  function Join(parts: seq<string>, sep: string): (r: string)
    ensures |parts| == 0 ==> r == ""
    ensures |parts| == 1 ==> r == parts[0]
    ensures |parts| >= 1 ==> parts[0] <= r
  {
    if |parts| == 0 then ""
    else if |parts| == 1 then parts[0]
    else parts[0] + sep + Join(parts[1..], sep)
  }

  /** Two parts are joined by one separator. */
  lemma JoinTwo(parts: seq<string>, sep: string)
    requires |parts| == 2
    ensures Join(parts, sep) == parts[0] + sep + parts[1]
  {
    assert parts[1..] == [parts[1]];
  }

  /** Two joined parts inside a bracketing regroup freely. */
  lemma Regroup(pre: string, a: string, sep: string, b: string, post: string)
    ensures pre + (a + sep + b) + post == pre + a + sep + b + post
  {
  }

  /** `t` occurs in `s` starting at position `k`. */
  predicate OccursAt(s: string, t: string, k: int) {
    0 <= k && k + |t| <= |s| && s[k..k + |t|] == t
  }

  /** Where the `i`-th part starts in `Join(parts, sep)`. */
  function PartOffset(parts: seq<string>, sep: string, i: nat): (k: nat)
    requires i < |parts|
  {
    if i == 0 then 0 else |parts[0]| + |sep| + PartOffset(parts[1..], sep, i - 1)
  }

  /** Every part appears in the joined string, at `PartOffset`. */
  lemma {:induction false} JoinContains(parts: seq<string>, sep: string, i: nat)
    requires i < |parts|
    ensures OccursAt(Join(parts, sep), parts[i], PartOffset(parts, sep, i))
  {
    var r := Join(parts, sep);
    if i == 0 {
      assert r[..|parts[0]|] == parts[0];
    } else {
      var tail := Join(parts[1..], sep);
      JoinContains(parts[1..], sep, i - 1);
      var k := PartOffset(parts[1..], sep, i - 1);
      var p := parts[0] + sep;
      assert r == p + tail;
      assert r[|p| + k..|p| + k + |parts[i]|] == tail[k..k + |parts[i]|];
    }
  }

  /** Every part appears in the joined string between a prefix and a
      suffix, shifted by the prefix. */
  lemma WrappedJoinContains(whole: string, pre: string, parts: seq<string>, sep: string, post: string,
                            i: nat, t: string, k: int)
    requires whole == pre + Join(parts, sep) + post
    requires i < |parts| && t == parts[i] && k == |pre| + PartOffset(parts, sep, i)
    ensures OccursAt(whole, t, k)
  {
    JoinContains(parts, sep, i);
    OccursInside(pre, Join(parts, sep), post, parts[i], PartOffset(parts, sep, i));
  }

  /** A part inside a larger string keeps its place after a prefix is added
      and a suffix appended. */
  lemma OccursInside(pre: string, s: string, post: string, t: string, k: int)
    requires OccursAt(s, t, k)
    ensures OccursAt(pre + s + post, t, |pre| + k)
  {
    assert (pre + s + post)[|pre| + k..|pre| + k + |t|] == s[k..k + |t|];
  }
}
