/** The JavaScript string operations the tool leans on: `startsWith`,
    `split` with a non-empty separator, and `join`. */
module Text {

  /** `p` is a prefix of `s`; on strings, JavaScript's `startsWith`. */
  predicate StartsWith<T(==)>(s: seq<T>, p: seq<T>) {
    |p| <= |s| && s[..|p|] == p
  }

  /** An occurrence of `sep` starts at index `i` of `s`. */
  predicate MatchAt(s: string, sep: string, i: int) {
    0 <= i && i + |sep| <= |s| && s[i..i + |sep|] == sep
  }

  predicate Contains(s: string, sep: string) {
    exists i :: 0 <= i <= |s| && MatchAt(s, sep, i)
  }

  /** No occurrence of `sep` starts inside `a`, not even one that would run
      on into a separator written right after `a`: `a` survives as a whole
      field when followed by `sep`. */
  predicate FreeField(a: string, sep: string) {
    forall i :: 0 <= i < |a| ==> !MatchAt(a + sep, sep, i)
  }

  /** JavaScript's `split`: scans left to right and cuts at every non-overlapping
      occurrence of `sep`; there is always at least one piece. */
  function Split(s: string, sep: string): (r: seq<string>)
    requires |sep| > 0
    ensures |r| > 0
    ensures StartsWith(s, r[0])
    ensures r[0] == "" <==> s == "" || StartsWith(s, sep)
    decreases |s|
  {
    if |s| < |sep| then [s]
    else if s[..|sep|] == sep then [""] + Split(s[|sep|..], sep)
    else
      var rest := Split(s[1..], sep);
      [[s[0]] + rest[0]] + rest[1..]
  }

  /** JavaScript's `join`: the parts with `sep` between each two. */
  function Join(parts: seq<string>, sep: string): string
  {
    if |parts| == 0 then ""
    else if |parts| == 1 then parts[0]
    else parts[0] + sep + Join(parts[1..], sep)
  }

  /** Splitting loses nothing: joining the pieces back gives the input. */
  lemma {:induction false} JoinSplit(s: string, sep: string)
    requires |sep| > 0
    ensures Join(Split(s, sep), sep) == s
    decreases |s|
  {
    if |s| < |sep| {
      assert Split(s, sep) == [s];
    } else if s[..|sep|] == sep {
      var tail := s[|sep|..];
      var rest := Split(tail, sep);
      assert Split(s, sep) == [""] + rest;
      JoinSplit(tail, sep);
      JoinCons("", rest, sep);
      assert s == "" + sep + tail;
    } else {
      var rest := Split(s[1..], sep);
      assert Split(s, sep) == [[s[0]] + rest[0]] + rest[1..];
      JoinSplit(s[1..], sep);
      JoinHead(s[0], rest, sep);
      assert s == [s[0]] + s[1..];
    }
  }

  lemma {:induction false} JoinCons(p: string, parts: seq<string>, sep: string)
    requires |parts| > 0
    ensures Join([p] + parts, sep) == p + sep + Join(parts, sep)
  {
    assert ([p] + parts)[1..] == parts;
  }

  /** A character put in front of the first part ends up in front of the
      joined string. */
  lemma {:induction false} JoinHead(c: char, parts: seq<string>, sep: string)
    requires |parts| > 0
    ensures Join([[c] + parts[0]] + parts[1..], sep) == [c] + Join(parts, sep)
  {
    var q := [[c] + parts[0]] + parts[1..];
    assert q[1..] == parts[1..];
    if |parts| > 1 {
      assert ([c] + parts[0]) + sep + Join(parts[1..], sep) == [c] + (parts[0] + sep + Join(parts[1..], sep));
    }
  }

  /** A string is split into more than one piece exactly when it contains
      the separator; otherwise the single piece is the string itself. */
  lemma {:induction false} SplitSingle(s: string, sep: string)
    requires |sep| > 0
    ensures |Split(s, sep)| == 1 <==> !Contains(s, sep)
    ensures !Contains(s, sep) ==> Split(s, sep) == [s]
    decreases |s|
  {
    if |s| < |sep| {
      assert !Contains(s, sep);
    } else if s[..|sep|] == sep {
      assert MatchAt(s, sep, 0);
    } else {
      SplitSingle(s[1..], sep);
      if Contains(s, sep) {
        var i :| 0 <= i <= |s| && MatchAt(s, sep, i);
        assert i != 0;
        assert s[1..][i - 1..i - 1 + |sep|] == s[i..i + |sep|];
        assert MatchAt(s[1..], sep, i - 1);
      } else {
        forall i | 0 <= i <= |s[1..]|
          ensures !MatchAt(s[1..], sep, i)
        {
          if MatchAt(s[1..], sep, i) {
            assert s[1..][i..i + |sep|] == s[i + 1..i + 1 + |sep|];
            assert MatchAt(s, sep, i + 1);
          }
        }
        assert Split(s, sep) == [[s[0]] + s[1..]];
        assert [s[0]] + s[1..] == s;
      }
    }
  }

  /** A free field followed by the separator comes out as one piece, and
      the split goes on after the separator. */
  lemma {:induction false} SplitAfterField(a: string, sep: string, b: string)
    requires |sep| > 0
    requires FreeField(a, sep)
    ensures Split(a + sep + b, sep) == [a] + Split(b, sep)
    decreases |a|
  {
    var s := a + sep + b;
    if |a| == 0 {
      assert s == sep + b;
      assert s[..|sep|] == sep;
      assert s[|sep|..] == b;
    } else {
      assert !MatchAt(a + sep, sep, 0);
      assert s[..|sep|] == (a + sep)[..|sep|];
      assert s[..|sep|] != sep;
      forall i | 0 <= i < |a[1..]|
        ensures !MatchAt(a[1..] + sep, sep, i)
      {
        assert (a[1..] + sep)[i..i + |sep|] == (a + sep)[i + 1..i + 1 + |sep|];
        assert !MatchAt(a + sep, sep, i + 1);
      }
      assert s[1..] == a[1..] + sep + b;
      SplitAfterField(a[1..], sep, b);
      assert [s[0]] + a[1..] == a;
    }
  }

  /** A free field between two separators splits into an empty piece,
      the field, and an empty piece. */
  lemma {:induction false} EnclosedPieces(a: string, sep: string)
    requires |sep| > 0 && FreeField(a, sep)
    ensures Split(sep + a + sep, sep) == ["", a, ""]
  {
    var t := a + sep;
    calc {
      Split(sep + a + sep, sep);
      { assert sep + a + sep == "" + sep + t; }
      Split("" + sep + t, sep);
      { SplitAfterField("", sep, t); }
      [""] + Split(t, sep);
      { assert t == a + sep + ""; SplitAfterField(a, sep, ""); }
      [""] + ([a] + Split("", sep));
      { assert Split("", sep) == [""]; }
      ["", a, ""];
    }
  }

  /** The first piece never holds the separator. */
  lemma {:induction false} SplitHeadFree(s: string, sep: string)
    requires |sep| > 0
    ensures !Contains(Split(s, sep)[0], sep)
    decreases |s|
  {
    var h := Split(s, sep)[0];
    if |s| < |sep| {
    } else if s[..|sep|] == sep {
    } else {
      SplitHeadFree(s[1..], sep);
      var rest := Split(s[1..], sep);
      assert h == [s[0]] + rest[0];
      forall i | 0 <= i <= |h|
        ensures !MatchAt(h, sep, i)
      {
        if MatchAt(h, sep, i) && i > 0 {
          assert h[i..i + |sep|] == rest[0][i - 1..i - 1 + |sep|];
          assert MatchAt(rest[0], sep, i - 1);
        }
      }
    }
  }

  /** A free field contains no separator at all. */
  lemma {:induction false} FreeFieldContainsNone(a: string, sep: string)
    requires |sep| > 0
    requires FreeField(a, sep)
    ensures !Contains(a, sep)
  {
    forall i | 0 <= i <= |a|
      ensures !MatchAt(a, sep, i)
    {
      if MatchAt(a, sep, i) {
        assert (a + sep)[i..i + |sep|] == a[i..i + |sep|];
        assert MatchAt(a + sep, sep, i);
      }
    }
  }

  /** A string without the separator character is split into itself. */
  lemma {:induction false} SplitWithoutChar(s: string, c: char)
    ensures c !in s ==> Split(s, [c]) == [s]
  {
    if c !in s {
      FreeOfChar(s, c);
      FreeFieldContainsNone(s, [c]);
      SplitSingle(s, [c]);
    }
  }

  /** For a one-character separator, a field is free exactly when it does
      not hold that character. */
  lemma {:induction false} FreeOfChar(a: string, c: char)
    requires c !in a
    ensures FreeField(a, [c])
  {
    forall i | 0 <= i < |a|
      ensures !MatchAt(a + [c], [c], i)
    {
      assert (a + [c])[i] == a[i];
    }
  }
}
