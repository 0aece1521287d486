/**
 * PostgreSQL's `ILIKE` as the search query of index.js:76-83 uses it: the pattern
 * `%q%` is matched against each searched column.  Case is ignored by ASCII
 * lower-casing.
 */
module Like {
  import opened Text

  predicate SameIgnoringCase(a: char, b: char) {
    Lower(a) == Lower(b)
  }

  /**
   * `s ILIKE p` with the default escape character `\`: `%` matches any run of
   * characters, `_` any one character, `\c` the character c, and every other pattern
   * character matches itself ignoring case.  A pattern ending in a lone `\` is an
   * error in PostgreSQL and matches nothing here; `%q%` always ends in `%`.
   */
  predicate ILike(s: string, p: string)
    decreases |s| + |p|
  {
    if p == [] then s == []
    else if p[0] == '%' then ILike(s, p[1..]) || (s != [] && ILike(s[1..], p))
    else if p[0] == '_' then s != [] && ILike(s[1..], p[1..])
    else if p[0] == '\\' then |p| >= 2 && s != [] && SameIgnoringCase(s[0], p[1]) && ILike(s[1..], p[2..])
    else s != [] && SameIgnoringCase(s[0], p[0]) && ILike(s[1..], p[1..])
  }

  /** A query with none of the characters ILIKE treats specially. */
  predicate Plain(t: string) {
    forall i :: 0 <= i < |t| ==> t[i] != '%' && t[i] != '_' && t[i] != '\\'
  }

  /** `t` occurs in `s` at `i`, ignoring ASCII case. */
  predicate OccursAt(s: string, t: string, i: nat) {
    i + |t| <= |s| && LowerText(s[i..i + |t|]) == LowerText(t)
  }

  /** `t` occurs somewhere in `s`, ignoring ASCII case. */
  ghost predicate ContainsIgnoringCase(s: string, t: string) {
    exists i: nat :: OccursAt(s, t, i)
  }

  /** `%` matches every text. */
  lemma {:induction false} PercentMatchesAll(s: string)
    ensures ILike(s, "%")
  {
    if s != [] {
      PercentMatchesAll(s[1..]);
    }
  }

  /** `t%` with a plain `t` matches exactly the texts that start with `t`, ignoring case. */
  lemma {:induction false} PlainPrefix(s: string, t: string)
    requires Plain(t)
    ensures ILike(s, t + "%") <==> OccursAt(s, t, 0)
  {
    if t == [] {
      assert t + "%" == "%";
      PercentMatchesAll(s);
      assert s[0..0] == [];
    } else {
      var p := t + "%";
      assert p[0] == t[0] && p[1..] == t[1..] + "%";
      if s != [] {
        PlainPrefix(s[1..], t[1..]);
        if |t| <= |s| {
          var a, b := s[..|t|], t;
          assert LowerText(a) == [Lower(a[0])] + LowerText(a[1..]);
          assert LowerText(b) == [Lower(b[0])] + LowerText(b[1..]);
          assert a[1..] == s[1..][..|t| - 1];
          assert s[0..|t|] == a;
          assert s[1..][0..|t[1..]|] == a[1..];
        }
      }
    }
  }

  /** `%p` matches exactly the texts some suffix of which `p` matches. */
  lemma {:induction false} LeadingPercent(s: string, p: string)
    ensures ILike(s, "%" + p) <==> exists i :: 0 <= i <= |s| && ILike(s[i..], p)
  {
    assert ("%" + p)[0] == '%' && ("%" + p)[1..] == p;
    if s == [] {
      assert s[0..] == s;
    } else {
      LeadingPercent(s[1..], p);
      assert s[0..] == s;
      if exists i :: 0 <= i <= |s| && ILike(s[i..], p) {
        var i :| 0 <= i <= |s| && ILike(s[i..], p);
        if i > 0 {
          assert s[1..][i - 1..] == s[i..];
        }
      }
      if exists j :: 0 <= j <= |s| - 1 && ILike(s[1..][j..], p) {
        var j :| 0 <= j <= |s| - 1 && ILike(s[1..][j..], p);
        assert s[1..][j..] == s[j + 1..];
      }
    }
  }

  /**
   * The search condition: with a plain query `t`, `s ILIKE '%t%'` holds exactly when
   * `t` occurs in `s`, ignoring case.
   */
  lemma PlainSubstring(s: string, t: string)
    requires Plain(t)
    ensures ILike(s, "%" + t + "%") <==> ContainsIgnoringCase(s, t)
  {
    assert "%" + t + "%" == "%" + (t + "%");
    LeadingPercent(s, t + "%");
    if ILike(s, "%" + t + "%") {
      var i :| 0 <= i <= |s| && ILike(s[i..], t + "%");
      PlainPrefix(s[i..], t);
      assert s[i..][0..|t|] == s[i..i + |t|];
      assert OccursAt(s, t, i);
    }
    if ContainsIgnoringCase(s, t) {
      var i: nat :| OccursAt(s, t, i);
      PlainPrefix(s[i..], t);
      assert s[i..][0..|t|] == s[i..i + |t|];
      assert ILike(s[i..], t + "%");
    }
  }
}
