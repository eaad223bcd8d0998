/** Character-level text handling that Django performs on form input and in
    `icontains` lookups: whitespace stripping, case folding and substring search. */
module Text {

  /** The characters Python's `str.isspace` accepts, which `str.strip` removes. */
  predicate IsSpace(c: char)
  {
    || c == ' ' || c == '\t' || c == '\n' || c == '\r'
    || c == '\U{000B}' || c == '\U{000C}'
    || ('\U{001C}' <= c <= '\U{001F}')
    || c == '\U{0085}' || c == '\U{00A0}' || c == '\U{1680}'
    || ('\U{2000}' <= c <= '\U{200A}')
    || c == '\U{2028}' || c == '\U{2029}' || c == '\U{202F}'
    || c == '\U{205F}' || c == '\U{3000}'
  }

  predicate AllSpace(s: string)
  {
    forall k :: 0 <= k < |s| ==> IsSpace(s[k])
  }

  /** A string with no whitespace at either end. */
  predicate Trimmed(s: string)
  {
    s == [] || (!IsSpace(s[0]) && !IsSpace(s[|s| - 1]))
  }

  /** `r` sits at offset `i` of `s` and everything around it is whitespace. */
  predicate StrippedAt(s: string, r: string, i: nat)
  {
    && i + |r| <= |s|
    && s[i..i + |r|] == r
    && AllSpace(s[..i])
    && AllSpace(s[i + |r|..])
  }

  function StripLeft(s: string): (r: string)
    ensures |r| <= |s|
    ensures r == [] || !IsSpace(r[0])
  {
    if s != [] && IsSpace(s[0]) then StripLeft(s[1..]) else s
  }

  /** `StripLeft` drops a whitespace prefix and keeps the rest. */
  lemma {:induction false} StripLeftSlice(s: string)
    ensures var r := StripLeft(s);
            r == s[|s| - |r|..] && AllSpace(s[..|s| - |r|])
  {
    if s != [] && IsSpace(s[0]) {
      StripLeftSlice(s[1..]);
      var r := StripLeft(s);
      assert s[..|s| - |r|] == [s[0]] + s[1..][..|s| - 1 - |r|];
    }
  }

  function StripRight(s: string): (r: string)
    ensures |r| <= |s|
    ensures r == [] || !IsSpace(r[|r| - 1])
  {
    if s != [] && IsSpace(s[|s| - 1]) then StripRight(s[..|s| - 1]) else s
  }

  /** `StripRight` drops a whitespace suffix and keeps the rest. */
  lemma {:induction false} StripRightSlice(s: string)
    ensures var r := StripRight(s);
            r == s[..|r|] && AllSpace(s[|r|..])
  {
    if s != [] && IsSpace(s[|s| - 1]) {
      StripRightSlice(s[..|s| - 1]);
      var r := StripRight(s);
      assert s[|r|..] == s[..|s| - 1][|r|..] + [s[|s| - 1]];
    }
  }

  /** Python's `str.strip()`: drop leading and trailing whitespace. */
  function Strip(s: string): (r: string)
    ensures Trimmed(r)
    ensures |r| <= |s|
  {
    var l := StripLeft(s);
    var r := StripRight(l);
    assert r == [] || !IsSpace(r[0]) by {
      if r != [] {
        StripRightSlice(l);
        assert r[0] == l[0];
      }
    }
    r
  }

  /** The stripped string is a slice of the input with only whitespace
      around it. */
  lemma StripSlice(s: string)
    ensures exists i :: StrippedAt(s, Strip(s), i)
  {
    var l := StripLeft(s);
    var r := StripRight(l);
    var i := |s| - |l|;
    StripLeftSlice(s);
    StripRightSlice(l);
    assert Strip(s) == r;
    assert s[i..i + |r|] == r by {
      assert s[i..] == l;
      assert l[..|r|] == r;
    }
    assert s[i + |r|..] == l[|r|..];
    assert StrippedAt(s, r, i);
  }

  /** A trimmed string is its own stripped form, so stripping twice changes nothing. */
  lemma {:induction false} StripTrimmed(s: string)
    requires Trimmed(s)
    ensures Strip(s) == s
  {
    assert StripLeft(s) == s;
    assert StripRight(s) == s;
  }

  lemma StripIdempotent(s: string)
    ensures Strip(Strip(s)) == Strip(s)
  {
    StripTrimmed(Strip(s));
  }

  /** Only an all-whitespace string strips to the empty string. */
  lemma {:induction false} StripEmpty(s: string)
    ensures Strip(s) == [] <==> AllSpace(s)
  {
    StripSlice(s);
    var i: nat :| StrippedAt(s, Strip(s), i);
    if Strip(s) == [] {
      assert s == s[..i] + s[i..];
      forall k | 0 <= k < |s| ensures IsSpace(s[k]) {
        if k < i { assert s[k] == s[..i][k]; } else { assert s[k] == s[i..][k - i]; }
      }
    } else {
      assert Strip(s)[0] == s[i] && !IsSpace(s[i]);
    }
  }

  /** Single-character case folding (ASCII letters), the stand-in for the
      database collation's case-insensitive comparison. */
  function FoldChar(c: char): char
  {
    if 'A' <= c <= 'Z' then (c as int - 'A' as int + 'a' as int) as char else c
  }

  function FoldCase(s: string): string
  {
    seq(|s|, i requires 0 <= i < |s| => FoldChar(s[i]))
  }

  /** `n` occurs in `h` starting at offset `i`. */
  predicate OccursAt(h: string, n: string, i: nat)
  {
    i + |n| <= |h| && h[i..i + |n|] == n
  }

  /** Substring test, as SQL `LIKE '%n%'`. */
  predicate Contains(h: string, n: string)
  {
    n <= h || (h != [] && Contains(h[1..], n))
  }

  /** `Contains` holds exactly when some offset holds an occurrence. */
  lemma {:induction false} ContainsIff(h: string, n: string)
    ensures Contains(h, n) <==> exists i :: OccursAt(h, n, i)
  {
    if n <= h {
      assert h[0..|n|] == n;
      assert OccursAt(h, n, 0);
    } else if h == [] {
      assert |n| > 0;
    } else {
      ContainsIff(h[1..], n);
      if exists i :: OccursAt(h[1..], n, i) {
        var i: nat :| OccursAt(h[1..], n, i);
        assert h[i + 1..i + 1 + |n|] == h[1..][i..i + |n|];
        assert OccursAt(h, n, i + 1);
      }
      if exists i :: OccursAt(h, n, i) {
        var i: nat :| OccursAt(h, n, i);
        assert h[1..][i - 1..i - 1 + |n|] == h[i..i + |n|];
        assert OccursAt(h[1..], n, i - 1);
      }
    }
  }

  /** Django's `icontains`: substring test after folding both sides. */
  predicate ContainsIgnoreCase(h: string, n: string)
  {
    Contains(FoldCase(h), FoldCase(n))
  }
}
