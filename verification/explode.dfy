/**
 * Splitting a string on a one-character separator, as PHP's `explode` does,
 * and its inverse `Join` (PHP's `implode`).
 */
module Explode {

  /** Glue the non-empty list of segments back together with `sep` between them. */
  function Join(parts: seq<string>, sep: char): (s: string)
    requires |parts| >= 1
    ensures |parts| == 1 ==> s == parts[0]
    ensures |parts| >= 2 ==> |parts[0]| < |s| && s[|parts[0]|] == sep
    decreases |parts|
  {
    if |parts| == 1 then parts[0]
    else parts[0] + [sep] + Join(parts[1..], sep)
  }

  /**
   * The segments of `s` between occurrences of `sep`. There is always at least
   * one segment (the empty string gives `[""]`), no segment contains `sep`, and
   * gluing the segments back together gives `s` again.
   */
  function Split(s: string, sep: char): (parts: seq<string>)
    ensures |parts| >= 1
    ensures forall i :: 0 <= i < |parts| ==> sep !in parts[i]
    ensures Join(parts, sep) == s
    decreases |s|
  {
    if |s| == 0 then [""]
    else
      var rest := Split(s[1..], sep);
      if s[0] == sep then
        assert Join([""] + rest, sep) == [sep] + Join(rest, sep) by {
          assert ([""] + rest)[1..] == rest;
        }
        assert s == [s[0]] + s[1..];
        [""] + rest
      else
        JoinHeadAppend([s[0]], rest, sep);
        assert s == [s[0]] + s[1..];
        [[s[0]] + rest[0]] + rest[1..]
  }

  /** Prepending text to the first segment prepends it to the joined string. */
  lemma JoinHeadAppend(a: string, parts: seq<string>, sep: char)
    requires |parts| >= 1
    ensures Join([a + parts[0]] + parts[1..], sep) == a + Join(parts, sep)
  {
    var q := [a + parts[0]] + parts[1..];
    assert q[1..] == parts[1..];
  }

  /** Splitting text with no separator in it, followed by anything, extends the first segment. */
  lemma {:induction false} SplitDotFreePrefix(h: string, t: string, sep: char)
    requires sep !in h
    ensures Split(h + t, sep) == [h + Split(t, sep)[0]] + Split(t, sep)[1..]
    decreases |h|
  {
    if |h| == 0 {
      assert h + t == t;
      assert h + Split(t, sep)[0] == Split(t, sep)[0];
      assert [Split(t, sep)[0]] + Split(t, sep)[1..] == Split(t, sep);
    } else {
      var s := h + t;
      assert s[0] == h[0];
      assert s[1..] == h[1..] + t;
      SplitDotFreePrefix(h[1..], t, sep);
      var rest := Split(s[1..], sep);
      assert rest[0] == h[1..] + Split(t, sep)[0];
      assert rest[1..] == Split(t, sep)[1..];
      assert [h[0]] + (h[1..] + Split(t, sep)[0]) == h + Split(t, sep)[0];
    }
  }

  /** A segment followed by the separator becomes a segment of its own. */
  lemma SplitSegmentThenSep(h: string, t: string, sep: char)
    requires sep !in h
    ensures Split(h + [sep] + t, sep) == [h] + Split(t, sep)
  {
    assert h + [sep] + t == h + ([sep] + t);
    SplitDotFreePrefix(h, [sep] + t, sep);
    var u := [sep] + t;
    assert u[0] == sep && u[1..] == t;
    assert Split(u, sep) == [""] + Split(t, sep);
    assert h + "" == h;
  }

  /** Splitting undoes joining: the round trip from separator-free segments. */
  lemma {:induction false} SplitJoin(parts: seq<string>, sep: char)
    requires |parts| >= 1
    requires forall i :: 0 <= i < |parts| ==> sep !in parts[i]
    ensures Split(Join(parts, sep), sep) == parts
    decreases |parts|
  {
    if |parts| == 1 {
      SplitDotFreePrefix(parts[0], "", sep);
      assert parts[0] + "" == parts[0];
    } else {
      assert forall i :: 0 <= i < |parts[1..]| ==> sep !in parts[1..][i] by {
        forall i | 0 <= i < |parts[1..]| ensures sep !in parts[1..][i] {
          assert parts[1..][i] == parts[i + 1];
        }
      }
      SplitJoin(parts[1..], sep);
      SplitSegmentThenSep(parts[0], Join(parts[1..], sep), sep);
      assert [parts[0]] + parts[1..] == parts;
    }
  }

  /** A string splits into two or more segments exactly when it contains the separator. */
  lemma SplitManyIffSep(s: string, sep: char)
    ensures |Split(s, sep)| >= 2 <==> sep in s
  {
    var parts := Split(s, sep);
    if |parts| >= 2 {
      assert s[|parts[0]|] == sep;
    } else {
      assert s == parts[0];
    }
  }
}
