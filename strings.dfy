/**
  Byte-string helpers shared by the identity, partitioning and name
  cleaning code: searching, filtering, joining with a separator and
  splitting on one. A Go string is a sequence of bytes; here each character
  stands for one byte.
*/
module Strings {

  /** `strings.IndexByte(s, c)`: the first index of `c`, or -1. */
  function IndexOf(s: string, c: char): (k: int)
    ensures -1 <= k < |s|
    ensures k == -1 <==> c !in s
    ensures 0 <= k ==> s[k] == c && c !in s[..k]
  {
    if s == [] then -1
    else if s[0] == c then 0
    else
      var k := IndexOf(s[1..], c);
      assert s[1..] == s[1..][..|s| - 1];
      if k < 0 then -1 else (assert s[..k + 1] == [s[0]] + s[1..][..k]; k + 1)
  }

  /** An occurrence with none before it is the one `IndexOf` finds. */
  lemma IndexOfFirst(s: string, c: char, k: int)
    requires 0 <= k < |s| && s[k] == c && c !in s[..k]
    ensures IndexOf(s, c) == k
  {
  }

  /** `IndexOf` finds an occurrence no later than any given one. */
  lemma {:induction false} IndexOfAtMost(s: string, c: char, i: int)
    requires 0 <= i < |s| && s[i] == c
    ensures 0 <= IndexOf(s, c) <= i
  {
    if s[0] != c {
      assert s[1..][i - 1] == c;
      IndexOfAtMost(s[1..], c, i - 1);
    }
  }

  /** The elements of `s` that satisfy `keep`, in their original order. */
  function Filter<T>(s: seq<T>, keep: T -> bool): (r: seq<T>)
    ensures |r| <= |s|
  {
    if s == [] then []
    else
      var r := Filter(s[..|s| - 1], keep);
      assert s == s[..|s| - 1] + [s[|s| - 1]];
      if keep(s[|s| - 1]) then r + [s[|s| - 1]] else r
  }

  /** Every element kept comes from `s` and passes; every passing element of `s` is kept. */
  lemma {:induction false} FilterMembers<T>(s: seq<T>, keep: T -> bool)
    ensures forall i | 0 <= i < |Filter(s, keep)| :: Filter(s, keep)[i] in s && keep(Filter(s, keep)[i])
    ensures forall i | 0 <= i < |s| :: keep(s[i]) ==> s[i] in Filter(s, keep)
    decreases |s|
  {
    if s != [] {
      var s', x := s[..|s| - 1], s[|s| - 1];
      FilterMembers(s', keep);
      assert s == s' + [x];
      var r', r := Filter(s', keep), Filter(s, keep);
      assert r == if keep(x) then r' + [x] else r';
      forall i | 0 <= i < |r| ensures r[i] in s && keep(r[i]) {
        if i < |r'| {
          assert r[i] == r'[i];
        } else {
          assert r[i] == x == s[|s| - 1];
        }
      }
      forall i | 0 <= i < |s| && keep(s[i]) ensures s[i] in r {
        if i < |s'| {
          assert s[i] == s'[i];
        }
      }
    }
  }

  lemma {:induction false} FilterAppend<T>(a: seq<T>, b: seq<T>, keep: T -> bool)
    ensures Filter(a + b, keep) == Filter(a, keep) + Filter(b, keep)
    decreases |b|
  {
    if b == [] {
      assert a + b == a;
    } else {
      var b' := b[..|b| - 1];
      assert (a + b)[..|a + b| - 1] == a + b';
      FilterAppend(a, b', keep);
    }
  }

  lemma {:induction false} FilterIdempotent<T>(s: seq<T>, keep: T -> bool)
    ensures Filter(Filter(s, keep), keep) == Filter(s, keep)
    decreases |s|
  {
    if s != [] {
      var s' := s[..|s| - 1];
      FilterIdempotent(s', keep);
      var x := s[|s| - 1];
      if keep(x) {
        FilterAppend(Filter(s', keep), [x], keep);
      }
    }
  }

  /** Filtering one more element. */
  lemma FilterSnoc<T>(s: seq<T>, x: T, keep: T -> bool)
    ensures Filter(s + [x], keep) == if keep(x) then Filter(s, keep) + [x] else Filter(s, keep)
  {
    assert (s + [x])[..|s|] == s;
  }

  /** Filtering with a weaker test first changes nothing. */
  lemma {:induction false} FilterFilter<T>(s: seq<T>, weak: T -> bool, strong: T -> bool)
    requires forall i | 0 <= i < |s| :: strong(s[i]) ==> weak(s[i])
    ensures Filter(Filter(s, weak), strong) == Filter(s, strong)
    decreases |s|
  {
    if s != [] {
      var s', x := s[..|s| - 1], s[|s| - 1];
      FilterFilter(s', weak, strong);
      if weak(x) {
        FilterSnoc(Filter(s', weak), x, strong);
      }
    }
  }

  /** A test every element passes keeps everything. */
  lemma {:induction false} FilterAll<T>(s: seq<T>, keep: T -> bool)
    requires forall i | 0 <= i < |s| :: keep(s[i])
    ensures Filter(s, keep) == s
    decreases |s|
  {
    if s != [] {
      FilterAll(s[..|s| - 1], keep);
    }
  }

  /** Two tests that agree on every element filter alike. */
  lemma {:induction false} FilterCongruent<T>(s: seq<T>, f: T -> bool, g: T -> bool)
    requires forall i | 0 <= i < |s| :: f(s[i]) == g(s[i])
    ensures Filter(s, f) == Filter(s, g)
    decreases |s|
  {
    if s != [] {
      FilterCongruent(s[..|s| - 1], f, g);
    }
  }

  /** Filtering keeps, for every value, exactly the occurrences that pass. */
  lemma {:induction false} FilterMultiset<T>(s: seq<T>, keep: T -> bool, x: T)
    ensures multiset(Filter(s, keep))[x] == if keep(x) then multiset(s)[x] else 0
    decreases |s|
  {
    if s != [] {
      var s' := s[..|s| - 1];
      assert s == s' + [s[|s| - 1]];
      FilterMultiset(s', keep, x);
    }
  }

  /** Each part in turn, each one preceded by `sep`. */
  function Prefixed(sep: char, parts: seq<string>): (r: string)
  {
    if parts == [] then []
    else Prefixed(sep, parts[..|parts| - 1]) + [sep] + parts[|parts| - 1]
  }

  /** Writing one more part. */
  lemma PrefixedSnoc(sep: char, parts: seq<string>, p: string)
    ensures Prefixed(sep, parts + [p]) == Prefixed(sep, parts) + [sep] + p
  {
    assert (parts + [p])[..|parts|] == parts;
  }

  lemma {:induction false} PrefixedAppend(sep: char, a: seq<string>, b: seq<string>)
    ensures Prefixed(sep, a + b) == Prefixed(sep, a) + Prefixed(sep, b)
    decreases |b|
  {
    if b == [] {
      assert a + b == a;
    } else {
      var b' := b[..|b| - 1];
      assert (a + b)[..|a + b| - 1] == a + b';
      PrefixedAppend(sep, a, b');
    }
  }

  lemma {:induction false} PrefixedCons(sep: char, p: string, rest: seq<string>)
    ensures Prefixed(sep, [p] + rest) == [sep] + p + Prefixed(sep, rest)
  {
    PrefixedAppend(sep, [p], rest);
    assert [p][..0] == [];
  }

  /** `strings.Join(parts, string(sep))`. */
  function Join(parts: seq<string>, sep: char): (r: string)
  {
    if parts == [] then [] else parts[0] + Prefixed(sep, parts[1..])
  }

  /** `strings.Split(s, string(sep))`: the maximal sep-free pieces between separators. */
  function Split(s: string, sep: char): (parts: seq<string>)
    ensures |parts| >= 1
    decreases |s|
  {
    var k := IndexOf(s, sep);
    if k < 0 then [s] else [s[..k]] + Split(s[k + 1..], sep)
  }

  /** No piece holds the separator. */
  lemma {:induction false} SplitPieces(s: string, sep: char)
    ensures forall i | 0 <= i < |Split(s, sep)| :: sep !in Split(s, sep)[i]
    decreases |s|
  {
    var k := IndexOf(s, sep);
    if k >= 0 {
      var rest := Split(s[k + 1..], sep);
      SplitPieces(s[k + 1..], sep);
      assert Split(s, sep) == [s[..k]] + rest;
      forall i | 0 <= i < |Split(s, sep)| ensures sep !in Split(s, sep)[i] {
        if i > 0 {
          assert Split(s, sep)[i] == rest[i - 1];
        }
      }
    }
  }

  /** Splitting a piece followed by the separator peels that piece off. */
  lemma SplitAfterPiece(p: string, sep: char, t: string)
    requires sep !in p
    ensures Split(p + [sep] + t, sep) == [p] + Split(t, sep)
  {
    var s := p + [sep] + t;
    assert s[..|p|] == p;
    IndexOfFirst(s, sep, |p|);
    assert s[|p| + 1..] == t;
  }

  /** Splitting undoes joining, as long as no part holds the separator. */
  lemma {:induction false} SplitJoin(parts: seq<string>, sep: char)
    requires |parts| >= 1
    requires forall i | 0 <= i < |parts| :: sep !in parts[i]
    ensures Split(Join(parts, sep), sep) == parts
    decreases |parts|
  {
    var p := parts[0];
    if |parts| == 1 {
      assert Join(parts, sep) == p;
      assert IndexOf(p, sep) == -1;
    } else {
      var rest := parts[1..];
      assert parts == [p] + rest;
      JoinCons(p, rest, sep);
      SplitAfterPiece(p, sep, Join(rest, sep));
      SplitJoin(rest, sep);
    }
  }

  lemma {:induction false} JoinCons(head: string, tail: seq<string>, sep: char)
    requires |tail| >= 1
    ensures Join([head] + tail, sep) == head + [sep] + Join(tail, sep)
  {
    var parts := [head] + tail;
    assert parts[0] == head && parts[1..] == tail;
    assert Join(parts, sep) == head + Prefixed(sep, tail);
    assert tail == [tail[0]] + tail[1..];
    PrefixedCons(sep, tail[0], tail[1..]);
    assert Join(tail, sep) == tail[0] + Prefixed(sep, tail[1..]);
  }

  /** Joining undoes splitting. */
  lemma {:induction false} JoinSplit(s: string, sep: char)
    ensures Join(Split(s, sep), sep) == s
    decreases |s|
  {
    var k := IndexOf(s, sep);
    if k < 0 {
      assert Split(s, sep) == [s];
      assert [s][1..] == [];
    } else {
      var head, rest := s[..k], s[k + 1..];
      assert s == head + [sep] + rest;
      var tail := Split(rest, sep);
      assert Split(s, sep) == [head] + tail;
      JoinSplit(rest, sep);
      JoinCons(head, tail, sep);
      assert Join(Split(s, sep), sep) == head + [sep] + rest;
    }
  }

  /** The pieces that appending `c` to `s` yields, given the pieces of `s`. */
  function SnocPieces(parts: seq<string>, c: char, sep: char): seq<string>
    requires |parts| >= 1
  {
    if c == sep then parts + [[]]
    else parts[..|parts| - 1] + [parts[|parts| - 1] + [c]]
  }

  lemma {:induction false} SplitSnocNoSeparator(s: string, c: char, sep: char)
    requires sep !in s
    ensures Split(s + [c], sep) == SnocPieces(Split(s, sep), c, sep)
  {
    var sc := s + [c];
    assert Split(s, sep) == [s];
    if c == sep {
      assert IndexOf(sc, sep) == |s| by {
        assert sc[..|s|] == s;
        IndexOfFirst(sc, sep, |s|);
      }
      assert Split(sc[|s| + 1..], sep) == [[]] by {
        assert sc[|s| + 1..] == [];
      }
      assert Split(sc, sep) == [s] + [[]];
    } else {
      assert Split(sc, sep) == [sc] by {
        assert sep !in sc;
      }
      assert [s][..0] == [];
    }
  }

  lemma {:induction false} SnocPiecesCons(head: string, tail: seq<string>, c: char, sep: char)
    requires |tail| >= 1
    ensures SnocPieces([head] + tail, c, sep) == [head] + SnocPieces(tail, c, sep)
  {
    var parts := [head] + tail;
    if c != sep {
      assert parts[..|parts| - 1] == [head] + tail[..|tail| - 1];
      assert parts[|parts| - 1] == tail[|tail| - 1];
    }
  }

  /** Appending one character either opens a new piece or extends the last one. */
  lemma {:induction false} SplitSnoc(s: string, c: char, sep: char)
    ensures Split(s + [c], sep) == SnocPieces(Split(s, sep), c, sep)
    decreases |s|
  {
    var k := IndexOf(s, sep);
    if k < 0 {
      SplitSnocNoSeparator(s, c, sep);
    } else {
      var head, rest := s[..k], s[k + 1..];
      var tail := Split(rest, sep);
      assert Split(s, sep) == [head] + tail by {
        assert s == head + [sep] + rest;
        SplitAfterPiece(head, sep, rest);
      }
      assert Split(s + [c], sep) == [head] + Split(rest + [c], sep) by {
        assert s + [c] == head + [sep] + (rest + [c]);
        SplitAfterPiece(head, sep, rest + [c]);
      }
      assert Split(rest + [c], sep) == SnocPieces(tail, c, sep) by {
        SplitSnoc(rest, c, sep);
      }
      SnocPiecesCons(head, tail, c, sep);
    }
  }
}
