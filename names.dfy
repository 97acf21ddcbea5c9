/**
  The two name clean-ups of metric.go: `SanitizeNameAsTagValue`, which makes
  a metric name usable as the value of a `name=` tag, and `EatDots`, which
  collapses runs of dots and drops leading and trailing ones.
*/
module Names {

  import opened Strings
  import opened Validation

  /**
    `SanitizeNameAsTagValue`: a name that does not start with `~` comes back
    unchanged; otherwise its leading run of `~` is cut off (an all-`~` name
    gives the empty string).
  */
  method SanitizeNameAsTagValue(name: string) returns (r: string)
    ensures |r| <= |name| && r == name[|name| - |r|..]
    ensures forall i | 0 <= i < |name| - |r| :: name[i] == '~'
    ensures r == [] || r[0] != '~'
    ensures name == [] || name[0] != '~' ==> r == name
  {
    if |name| == 0 || name[0] != '~' {
      return name;
    }
    var i := 1;
    while i < |name|
      invariant 1 <= i <= |name|
      invariant forall j | 0 <= j < i :: name[j] == '~'
    {
      if name[i] != '~' {
        return name[i..];
      }
      i := i + 1;
    }
    return "";
  }

  /**
    What the clean-up is for: once a name has no leading `~`, it makes a
    valid `name=` tag exactly when it is non-empty and holds no `;`.
  */
  lemma SanitizedNameMakesTag(value: string)
    requires value == [] || value[0] != '~'
    ensures ValidateTag("name=" + value) <==> value != [] && ';' !in value
  {
    assert "name=" + value == "name" + "=" + value;
    ValidateTagKeyMeans("name");
    assert ValidateTagKey("name");
    TagFromKeyValue("name", value);
  }

  /** `strings.TrimLeft(s, ".")`. */
  function TrimLeftDots(s: string): (r: string)
    ensures r == [] || r[0] != '.'
  {
    if s != [] && s[0] == '.' then TrimLeftDots(s[1..]) else s
  }

  /** `TrimLeftDots` removes a prefix made only of dots. */
  lemma {:induction false} TrimLeftDotsMeans(s: string)
    ensures var r := TrimLeftDots(s);
      |r| <= |s| && r == s[|s| - |r|..] && forall i | 0 <= i < |s| - |r| :: s[i] == '.'
  {
    if s != [] && s[0] == '.' {
      TrimLeftDotsMeans(s[1..]);
    }
  }

  /** `strings.TrimRight(s, ".")`. */
  function TrimRightDots(s: string): (r: string)
    ensures r == [] || r[|r| - 1] != '.'
  {
    if s != [] && s[|s| - 1] == '.' then TrimRightDots(s[..|s| - 1]) else s
  }

  /** `TrimRightDots` removes a suffix made only of dots. */
  lemma {:induction false} TrimRightDotsMeans(s: string)
    ensures var r := TrimRightDots(s);
      |r| <= |s| && r == s[..|r|] && forall i | |r| <= i < |s| :: s[i] == '.'
  {
    if s != [] && s[|s| - 1] == '.' {
      TrimRightDotsMeans(s[..|s| - 1]);
    }
  }

  /** `strings.Trim(s, ".")`: no dot left at either end. */
  function TrimDots(s: string): (r: string)
    ensures r == [] || (r[0] != '.' && r[|r| - 1] != '.')
  {
    TrimRightDotsMeans(TrimLeftDots(s));
    TrimRightDots(TrimLeftDots(s))
  }

  predicate NonEmpty(s: string)
  {
    s != []
  }

  /** The non-empty dot-separated segments of `s`, in order. */
  function Words(s: string): seq<string>
  {
    Filter(Split(s, '.'), NonEmpty)
  }

  lemma WordsOfEmpty()
    ensures Words([]) == []
  {
    assert Split([], '.') == [[]];
  }

  /** A trailing dot adds no segment. */
  lemma WordsSnocDot(s: string)
    ensures Words(s + ['.']) == Words(s)
  {
    var parts := Split(s, '.');
    SplitSnoc(s, '.', '.');
    assert Split(s + ['.'], '.') == parts + [[]];
    FilterAppend(parts, [[]], NonEmpty);
    assert Filter([[]], NonEmpty) == [];
  }

  /** A leading dot adds no segment. */
  lemma WordsConsDot(s: string)
    ensures Words(['.'] + s) == Words(s)
  {
    var ds := ['.'] + s;
    assert IndexOf(ds, '.') == 0;
    assert ds[1..] == s;
    assert Split(ds, '.') == [[]] + Split(s, '.');
    FilterAppend([[]], Split(s, '.'), NonEmpty);
    assert Filter([[]], NonEmpty) == [];
  }

  lemma {:induction false} WordsTrimLeft(s: string)
    ensures Words(TrimLeftDots(s)) == Words(s)
  {
    if s != [] && s[0] == '.' {
      WordsTrimLeft(s[1..]);
      assert s == ['.'] + s[1..];
      WordsConsDot(s[1..]);
    }
  }

  lemma {:induction false} WordsTrimRight(s: string)
    ensures Words(TrimRightDots(s)) == Words(s)
  {
    if s != [] && s[|s| - 1] == '.' {
      WordsTrimRight(s[..|s| - 1]);
      assert s == s[..|s| - 1] + ['.'];
      WordsSnocDot(s[..|s| - 1]);
    }
  }

  /** Trimming the dots at the ends changes no segment. */
  lemma WordsTrim(s: string)
    ensures Words(TrimDots(s)) == Words(s)
  {
    WordsTrimLeft(s);
    WordsTrimRight(TrimLeftDots(s));
  }

  /** Joining one more part onto a list. */
  lemma JoinSnoc(parts: seq<string>, x: string, sep: char)
    ensures Join(parts + [x], sep) == if parts == [] then x else Join(parts, sep) + [sep] + x
  {
    if parts != [] {
      var px := parts + [x];
      assert px[0] == parts[0] && px[1..] == parts[1..] + [x];
      PrefixedSnoc(sep, parts[1..], x);
      var p := Prefixed(sep, parts[1..]);
      assert Join(px, sep) == parts[0] + (p + [sep] + x);
      assert parts[0] + (p + [sep] + x) == (parts[0] + p) + [sep] + x;
    } else {
      assert parts + [x] == [x];
    }
  }

  /** The last segment of `s` is empty exactly when `s` is empty or ends with `sep`. */
  lemma LastPieceEmpty(s: string, sep: char)
    ensures var parts := Split(s, sep);
      parts[|parts| - 1] == [] <==> s == [] || s[|s| - 1] == sep
  {
    if s == [] {
      assert Split(s, sep) == [[]];
    } else {
      var init := s[..|s| - 1];
      assert s == init + [s[|s| - 1]];
      SplitSnoc(init, s[|s| - 1], sep);
    }
  }

  /** A string that starts with a non-dot has a segment. */
  lemma WordsNonEmpty(s: string)
    requires s != [] && s[0] != '.'
    ensures Words(s) != []
  {
    var k := IndexOf(s, '.');
    var first := Split(s, '.')[0];
    assert first == if k < 0 then s else s[..k];
    assert first[0] == s[0];
    assert NonEmpty(Split(s, '.')[0]);
    FilterMembers(Split(s, '.'), NonEmpty);
  }

  /** The segments of `s`, read off its last piece. */
  lemma WordsByLastPiece(s: string)
    ensures var parts := Split(s, '.');
      Words(s) == Filter(parts[..|parts| - 1], NonEmpty)
                  + (if parts[|parts| - 1] == [] then [] else [parts[|parts| - 1]])
  {
    var parts := Split(s, '.');
    var init, last := parts[..|parts| - 1], parts[|parts| - 1];
    assert parts == init + [last];
    FilterAppend(init, [last], NonEmpty);
    assert Filter([last], NonEmpty) == if last == [] then [] else [last];
  }

  /** Appending a non-dot extends the last piece, which then counts as a segment. */
  lemma WordsSnocCharPieces(s: string, c: char)
    requires c != '.'
    ensures var parts := Split(s, '.');
      Words(s + [c]) == Filter(parts[..|parts| - 1], NonEmpty) + [parts[|parts| - 1] + [c]]
  {
    var parts := Split(s, '.');
    var init, last := parts[..|parts| - 1], parts[|parts| - 1];
    SplitSnoc(s, c, '.');
    assert Split(s + [c], '.') == init + [last + [c]];
    FilterAppend(init, [last + [c]], NonEmpty);
    assert Filter([last + [c]], NonEmpty) == [last + [c]];
  }

  /** A non-dot after a dot, or at the start, opens a new segment. */
  lemma WordsSnocCharAfterDot(s: string, c: char)
    requires c != '.'
    requires s == [] || s[|s| - 1] == '.'
    ensures Join(Words(s + [c]), '.') ==
      if Words(s) == [] then [c] else Join(Words(s), '.') + ['.', c]
  {
    var parts := Split(s, '.');
    var w := Filter(parts[..|parts| - 1], NonEmpty);
    LastPieceEmpty(s, '.');
    assert parts[|parts| - 1] == [];
    WordsByLastPiece(s);
    assert Words(s) == w;
    WordsSnocCharPieces(s, c);
    assert parts[|parts| - 1] + [c] == [c];
    assert Words(s + [c]) == w + [[c]];
    JoinSnoc(w, [c], '.');
  }

  /** A non-dot after a non-dot extends the last segment. */
  lemma WordsSnocCharInWord(s: string, c: char)
    requires c != '.'
    requires s != [] && s[|s| - 1] != '.'
    ensures Join(Words(s + [c]), '.') == Join(Words(s), '.') + [c]
  {
    var parts := Split(s, '.');
    var w, last := Filter(parts[..|parts| - 1], NonEmpty), parts[|parts| - 1];
    assert Words(s) == w + [last] by {
      LastPieceEmpty(s, '.');
      WordsByLastPiece(s);
    }
    assert Words(s + [c]) == w + [last + [c]] by {
      WordsSnocCharPieces(s, c);
    }
    JoinSnoc(w, last + [c], '.');
    JoinSnoc(w, last, '.');
    if w != [] {
      var j := Join(w, '.');
      assert j + ['.'] + (last + [c]) == (j + ['.'] + last) + [c];
    }
  }

  /** The dot the loop has written but the segments do not yet account for. */
  function Pending(n: string, i: int): string
  {
    if 0 < i < |n| && n[i - 1] == '.' && n[i] != '.' then "." else ""
  }

  /**
    The invariant of `EatDots`' loop over the trimmed name `n`: after `i`
    bytes, `rt` holds their segments joined by dots, plus the dot that a
    segment starting at `i` is owed.
  */
  predicate Collapsed(n: string, i: int, rt: string)
    requires 0 <= i <= |n|
  {
    rt == Join(Words(n[..i]), '.') + Pending(n, i)
  }

  /** A turn of `EatDots`' loop at a dot: it is written only when a non-dot follows. */
  lemma EatDotsStepDot(n: string, i: int, rt: string)
    requires n != [] && n[|n| - 1] != '.'
    requires 0 <= i < |n| && n[i] == '.'
    requires Collapsed(n, i, rt)
    ensures i + 1 < |n|
    ensures Collapsed(n, i + 1, if n[i + 1] == '.' then rt else rt + ['.'])
  {
    var w := Words(n[..i]);
    assert n[..i + 1] == n[..i] + ['.'];
    WordsSnocDot(n[..i]);
    assert Words(n[..i + 1]) == w;
    assert Pending(n, i) == "";
    assert rt == Join(w, '.');
  }

  /** A turn at a non-dot that starts a segment (at the start or after a dot). */
  lemma EatDotsStepWordStart(n: string, i: int, rt: string)
    requires n != [] && n[0] != '.'
    requires 0 <= i < |n| && n[i] != '.' && (i == 0 || n[i - 1] == '.')
    requires Collapsed(n, i, rt)
    ensures Collapsed(n, i + 1, rt + [n[i]])
  {
    var s := n[..i];
    assert Pending(n, i + 1) == "";
    assert Join(Words(n[..i + 1]), '.') ==
      if Words(s) == [] then [n[i]] else Join(Words(s), '.') + ['.', n[i]] by {
      assert n[..i + 1] == s + [n[i]];
      WordsSnocCharAfterDot(s, n[i]);
    }
    if i == 0 {
      assert Words(s) == [] && rt == [] by {
        WordsOfEmpty();
        assert s == [];
      }
    } else {
      assert Words(s) != [] && rt == Join(Words(s), '.') + "." by {
        WordsNonEmpty(s);
        assert Pending(n, i) == ".";
      }
    }
  }

  /** A turn at a non-dot inside a segment. */
  lemma EatDotsStepInWord(n: string, i: int, rt: string)
    requires 0 < i < |n| && n[i] != '.' && n[i - 1] != '.'
    requires Collapsed(n, i, rt)
    ensures Collapsed(n, i + 1, rt + [n[i]])
  {
    var s := n[..i];
    assert Pending(n, i) == "" && Pending(n, i + 1) == "";
    assert rt == Join(Words(s), '.');
    assert Join(Words(n[..i + 1]), '.') == Join(Words(s), '.') + [n[i]] by {
      assert n[..i + 1] == s + [n[i]];
      WordsSnocCharInWord(s, n[i]);
    }
  }

  /**
    `EatDots`: the non-empty dot-separated segments of `name`, joined by
    single dots.
  */
  method EatDots(name: string) returns (r: string)
    ensures r == Join(Words(name), '.')
  {
    WordsOfEmpty();
    if |name| == 0 {
      return "";
    }
    var n := TrimDots(name);
    WordsTrim(name);
    if |n| == 0 {
      return "";
    }
    r := CollapseDots(n);
  }

  /** The loop of `EatDots`, over a name with no dot at either end. */
  method CollapseDots(n: string) returns (rt: string)
    requires n != [] && n[0] != '.' && n[|n| - 1] != '.'
    ensures rt == Join(Words(n), '.')
  {
    rt := [];
    var i := 0;
    assert n[..0] == [];
    while i < |n|
      invariant 0 <= i <= |n|
      invariant Collapsed(n, i, rt)
      decreases |n| - i
    {
      rt, i := CollapseStep(n, i, rt);
    }
    assert n[..i] == n;
  }

  /**
    One turn of `EatDots`' loop at byte `i`: a dot is written only when a
    non-dot follows it, any other byte is copied.
  */
  method CollapseStep(n: string, i: int, rt: string) returns (rt': string, i': int)
    requires n != [] && n[0] != '.' && n[|n| - 1] != '.'
    requires 0 <= i < |n| && Collapsed(n, i, rt)
    ensures i' == i + 1 && Collapsed(n, i', rt')
  {
    if n[i] == '.' {
      EatDotsStepDot(n, i, rt);
      rt' := if n[i + 1] == '.' then rt else rt + ['.'];
    } else {
      if i == 0 || n[i - 1] == '.' {
        EatDotsStepWordStart(n, i, rt);
      } else {
        EatDotsStepInWord(n, i, rt);
      }
      rt' := rt + [n[i]];
    }
    i' := i + 1;
  }

  /** Splitting at a doubled separator yields an empty piece. */
  lemma {:induction false} DoubleSeparatorGivesEmptyPiece(s: string, sep: char, i: int)
    requires 0 <= i && i + 1 < |s| && s[i] == sep && s[i + 1] == sep
    ensures [] in Split(s, sep)
    decreases |s|
  {
    IndexOfAtMost(s, sep, i);
    var k := IndexOf(s, sep);
    var rest := s[k + 1..];
    assert Split(s, sep) == [s[..k]] + Split(rest, sep) by {
      assert s == s[..k] + [sep] + rest;
      SplitAfterPiece(s[..k], sep, rest);
    }
    if k == i {
      assert Split(rest, sep) == [[]] + Split(rest[1..], sep) by {
        assert rest == [] + [sep] + rest[1..];
        SplitAfterPiece([], sep, rest[1..]);
      }
    } else {
      assert [] in Split(rest, sep) by {
        assert rest[i - k - 1] == sep && rest[i - k] == sep;
        DoubleSeparatorGivesEmptyPiece(rest, sep, i - k - 1);
      }
    }
  }

  /**
    The shape `EatDots` promises: no leading dot, no trailing dot, no two
    dots in a row, and the same segments as the input.
  */
  lemma EatDotsShape(name: string)
    ensures var r := Join(Words(name), '.');
      && (r == [] || (r[0] != '.' && r[|r| - 1] != '.'))
      && (forall i | 0 <= i < |r| - 1 :: !(r[i] == '.' && r[i + 1] == '.'))
      && Words(r) == Words(name)
  {
    var w := Words(name);
    var r := Join(w, '.');
    FilterIdempotent(Split(name, '.'), NonEmpty);
    if w == [] {
      WordsOfEmpty();
    } else {
      FilterMembers(Split(name, '.'), NonEmpty);
      SplitPieces(name, '.');
      forall i | 0 <= i < |w| ensures '.' !in w[i] {
        assert w[i] in Split(name, '.');
      }
      SplitJoin(w, '.');
      assert Split(r, '.') == w;
      assert [] !in w;
      forall i | 0 <= i < |r| - 1 ensures !(r[i] == '.' && r[i + 1] == '.') {
        if r[i] == '.' && r[i + 1] == '.' {
          DoubleSeparatorGivesEmptyPiece(r, '.', i);
        }
      }
      if r != [] {
        assert r[0] != '.';
        assert r[|r| - 1] != '.' by {
          LastPieceEmpty(r, '.');
          assert w[|w| - 1] != [];
        }
      }
    }
  }

  /** Eating dots twice is eating them once. */
  lemma EatDotsIdempotent(name: string)
    ensures Join(Words(Join(Words(name), '.')), '.') == Join(Words(name), '.')
  {
    EatDotsShape(name);
  }

  /** A name made only of dots (or empty) has no segment. */
  lemma {:induction false} WordsOfDots(name: string)
    requires forall i | 0 <= i < |name| :: name[i] == '.'
    ensures Words(name) == []
  {
    WordsOfEmpty();
    if name != [] {
      assert name == ['.'] + name[1..];
      WordsConsDot(name[1..]);
      WordsOfDots(name[1..]);
    }
  }

  /** A name made only of dots has no segments, so `EatDots` returns "". */
  lemma EatDotsAllDots(name: string)
    requires forall i | 0 <= i < |name| :: name[i] == '.'
    ensures Join(Words(name), '.') == ""
  {
    WordsOfDots(name);
  }
}
