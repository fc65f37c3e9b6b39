/** The parts of Go's `strings` package the core relies on, over generic
    sequences: `Index`, `Split`, `SplitN(s, sep, 2)`, `Join` and `TrimSpace`. */
module Strings {
  import opened Wrappers

  /** `sep` occurs in `s` starting at position `i`. */
  predicate OccursAt<T(==)>(s: seq<T>, sep: seq<T>, i: int)
  {
    0 <= i && i + |sep| <= |s| && s[i..i + |sep|] == sep
  }

  /** `sep` occurs nowhere in `s`. */
  ghost predicate Free<T>(s: seq<T>, sep: seq<T>)
  {
    forall i :: !OccursAt(s, sep, i)
  }

  /** No proper suffix of `sep` is also a prefix of it, so two occurrences of
      `sep` can never overlap ("\r\n" and every one-element separator). */
  ghost predicate Borderless<T>(sep: seq<T>)
  {
    forall k :: 0 < k < |sep| ==> sep[k..] != sep[..|sep| - k]
  }

  /** First occurrence of `sep` in `s` at or after `from`. */
  function IndexFrom<T(==)>(s: seq<T>, sep: seq<T>, from: nat): (r: Option<nat>)
    requires |sep| > 0
    ensures r.Some? ==> from <= r.value && OccursAt(s, sep, r.value)
    ensures r.Some? ==> forall j :: from <= j < r.value ==> !OccursAt(s, sep, j)
    ensures r.None? ==> forall j :: from <= j ==> !OccursAt(s, sep, j)
    decreases |s| - from
  {
    if from + |sep| > |s| then None
    else if s[from..from + |sep|] == sep then Some(from)
    else IndexFrom(s, sep, from + 1)
  }

  /** Go's `strings.Index`: the first occurrence of `sep` in `s`, if any. */
  function Index<T(==)>(s: seq<T>, sep: seq<T>): (r: Option<nat>)
    requires |sep| > 0
    ensures r.Some? ==> OccursAt(s, sep, r.value)
    ensures r.Some? ==> forall j :: 0 <= j < r.value ==> !OccursAt(s, sep, j)
    ensures r.None? <==> Free(s, sep)
  {
    IndexFrom(s, sep, 0)
  }

  /** Go's `strings.Join`: the parts with `sep` between neighbours. */
  function Join<T>(parts: seq<seq<T>>, sep: seq<T>): seq<T>
  {
    if |parts| == 0 then []
    else if |parts| == 1 then parts[0]
    else parts[0] + sep + Join(parts[1..], sep)
  }

  /** A join starts with the first part and ends with the last, and with
      two or more parts the separator follows the first part. */
  lemma {:induction false} JoinEnds<T>(parts: seq<seq<T>>, sep: seq<T>)
    requires |parts| > 0
    ensures var r, first, last := Join(parts, sep), parts[0], parts[|parts| - 1];
      && |first| <= |r| && r[..|first|] == first
      && |last| <= |r| && r[|r| - |last|..] == last
      && (|parts| > 1 ==> |first| + |sep| <= |r| && r[|first|..|first| + |sep|] == sep)
    decreases |parts|
  {
    if |parts| > 1 {
      JoinEnds(parts[1..], sep);
      var rest := Join(parts[1..], sep);
      assert Join(parts, sep) == parts[0] + sep + rest;
      assert parts[1..][|parts| - 2] == parts[|parts| - 1];
    }
  }

  /** Go's `strings.Split` with a non-empty separator: cut `s` at every
      occurrence of `sep`, scanning left to right. Joining the pieces back
      gives `s`, and no piece contains the separator. */
  function Split<T(==)>(s: seq<T>, sep: seq<T>): (r: seq<seq<T>>)
    requires |sep| > 0
    ensures |r| >= 1
    ensures Join(r, sep) == s
    ensures forall k :: 0 <= k < |r| ==> Free(r[k], sep)
    decreases |s|
  {
    match Index(s, sep)
    case None => [s]
    case Some(i) =>
      var rest := Split(s[i + |sep|..], sep);
      assert Free(s[..i], sep) by {
        forall j ensures !OccursAt(s[..i], sep, j) {
          if 0 <= j && j + |sep| <= i {
            assert s[..i][j..j + |sep|] == s[j..j + |sep|];
            assert !OccursAt(s, sep, j);
          }
        }
      }
      assert s == s[..i] + sep + s[i + |sep|..];
      [s[..i]] + rest
  }

  /** In `p + sep + rest`, with `p` free of `sep` and `sep` borderless, the
      first occurrence of `sep` is the one right after `p`. */
  lemma IndexAfterFreePrefix<T>(p: seq<T>, sep: seq<T>, rest: seq<T>)
    requires |sep| > 0 && Borderless(sep) && Free(p, sep)
    ensures Index(p + sep + rest, sep) == Some(|p|)
  {
    var s := p + sep + rest;
    assert s[|p|..|p| + |sep|] == sep;
    forall j | 0 <= j < |p|
      ensures !OccursAt(s, sep, j)
    {
      if j + |sep| <= |p| {
        assert s[j..j + |sep|] == p[j..j + |sep|];
        assert !OccursAt(p, sep, j);
      } else if j + |sep| <= |s| {
        var k := |p| - j;
        assert s[j..j + |sep|][k..] == sep[..|sep| - k];
        assert sep[k..] != sep[..|sep| - k];
      }
    }
    assert OccursAt(s, sep, |p|);
  }

  /** Splitting a join gives the parts back, when no part contains the
      separator and the separator cannot overlap itself. */
  lemma {:induction false} SplitJoin<T>(parts: seq<seq<T>>, sep: seq<T>)
    requires |parts| >= 1 && |sep| > 0 && Borderless(sep)
    requires forall k :: 0 <= k < |parts| ==> Free(parts[k], sep)
    ensures Split(Join(parts, sep), sep) == parts
    decreases |parts|
  {
    if |parts| == 1 {
      assert Free(Join(parts, sep), sep);
    } else {
      var rest := Join(parts[1..], sep);
      IndexAfterFreePrefix(parts[0], sep, rest);
      var s := parts[0] + sep + rest;
      assert s[|parts[0]| + |sep|..] == rest;
      assert s[..|parts[0]|] == parts[0];
      SplitJoin(parts[1..], sep);
      assert [parts[0]] + parts[1..] == parts;
    }
  }

  /** Every one-element separator is borderless. */
  lemma SingletonBorderless<T>(x: T)
    ensures Borderless([x])
  {
  }

  /** Go's `strings.SplitN(s, sep, 2)` for a one-element separator: the text
      before the first `sep` and the text after it, or `s` alone. */
  function SplitFirst<T(==)>(s: seq<T>, sep: T): (r: seq<seq<T>>)
    ensures |r| == 1 <==> sep !in s
    ensures |r| == 1 ==> r[0] == s
    ensures |r| == 2 ==> sep !in r[0] && s == r[0] + [sep] + r[1]
    ensures 1 <= |r| <= 2
  {
    match Index(s, [sep])
    case None =>
      assert sep !in s by {
        forall i | 0 <= i < |s| ensures s[i] != sep {
          assert !OccursAt(s, [sep], i);
          assert s[i..i + 1] == [s[i]];
        }
      }
      [s]
    case Some(i) =>
      assert s[i..i + 1] == [sep];
      assert sep !in s[..i] by {
        forall j | 0 <= j < i ensures s[j] != sep {
          assert !OccursAt(s, [sep], j);
          assert s[j..j + 1] == [s[j]];
        }
      }
      assert s == s[..i] + [sep] + s[i + 1..];
      [s[..i], s[i + 1..]]
  }

  /** For a one-element separator, being free of it is not containing it. */
  lemma FreeSingleton<T>(s: seq<T>, x: T)
    ensures Free(s, [x]) <==> x !in s
  {
    forall i | 0 <= i < |s| ensures OccursAt(s, [x], i) <==> s[i] == x {
      assert s[i..i + 1] == [s[i]];
    }
  }

  /** A separator absent from `p` splits `p + [x] + rest` right after `p`. */
  lemma SplitFirstOf<T>(p: seq<T>, x: T, rest: seq<T>)
    requires x !in p
    ensures SplitFirst(p + [x] + rest, x) == [p, rest]
  {
    FreeSingleton(p, x);
    IndexAfterFreePrefix(p, [x], rest);
    var s := p + [x] + rest;
    assert s[..|p|] == p && s[|p| + 1..] == rest;
  }

  /** Splitting at every one-element separator and at the first one agree on
      the first piece. */
  lemma SplitHead<T>(s: seq<T>, x: T)
    ensures Split(s, [x])[0] == SplitFirst(s, x)[0]
  {
  }

  /** Go's `unicode.IsSpace`: the Latin-1 spaces and the other characters
      with the Unicode White_Space property. */
  predicate IsSpace(c: char)
  {
    || c == '\t' || c == '\n' || c == '\U{000B}' || c == '\U{000C}' || c == '\r' || c == ' '
    || c == '\U{0085}' || c == '\U{00A0}' || c == '\U{1680}'
    || ('\U{2000}' <= c <= '\U{200A}')
    || c == '\U{2028}' || c == '\U{2029}' || c == '\U{202F}' || c == '\U{205F}' || c == '\U{3000}'
  }

  /** The first position at or after `from` that is not white space (`|s|`
      when there is none). */
  function SpaceEnd(s: string, from: nat): (r: nat)
    requires from <= |s|
    ensures from <= r <= |s|
    ensures forall k :: from <= k < r ==> IsSpace(s[k])
    ensures r < |s| ==> !IsSpace(s[r])
    decreases |s| - from
  {
    if from < |s| && IsSpace(s[from]) then SpaceEnd(s, from + 1) else from
  }

  /** Scanning back from `hi`, no further than `lo`: the start of the white
      space that ends at `hi`. */
  function SpaceStart(s: string, lo: nat, hi: nat): (r: nat)
    requires lo <= hi <= |s|
    ensures lo <= r <= hi
    ensures forall k :: r <= k < hi ==> IsSpace(s[k])
    ensures r > lo ==> !IsSpace(s[r - 1])
    decreases hi
  {
    if hi > lo && IsSpace(s[hi - 1]) then SpaceStart(s, lo, hi - 1) else hi
  }

  /** `s[i..j]` is `s` with only white space cut from its two ends. */
  ghost predicate TrimmedAt(s: string, i: int, j: int)
  {
    && 0 <= i <= j <= |s|
    && (forall k :: 0 <= k < i ==> IsSpace(s[k]))
    && (forall k :: j <= k < |s| ==> IsSpace(s[k]))
  }

  /** Go's `strings.TrimSpace`: the slice of `s` left once the white space at
      both ends is removed (the leading white space first, then the trailing
      white space of what remains). */
  function TrimSpace(s: string): (r: string)
    ensures exists i, j :: TrimmedAt(s, i, j) && r == s[i..j]
    ensures |r| > 0 ==> !IsSpace(r[0]) && !IsSpace(r[|r| - 1])
  {
    var i := SpaceEnd(s, 0);
    var j := SpaceStart(s, i, |s|);
    assert TrimmedAt(s, i, j);
    s[i..j]
  }

  /** A string whose two ends are not white space is its own trim. */
  lemma TrimSpaceNoop(s: string)
    requires |s| > 0 ==> !IsSpace(s[0]) && !IsSpace(s[|s| - 1])
    ensures TrimSpace(s) == s
  {
  }
}
