/**
 The text filter behind the summary history search. The repository calls
 `.ilike(f"%{q}%")`, which on SQLite becomes `lower(column) LIKE lower('%q%')`:
 both sides are lower-cased (ASCII letters only), then matched as a LIKE
 pattern in which `%` stands for any run of characters and `_` for any
 single character.

 This module holds both the matcher as written (the user's `q` pasted into
 the pattern unescaped) and the plain case-insensitive substring test the
 filter is evidently meant to be. The rest of the model uses the latter.
 */
module Ilike {

  /** ASCII lower-casing, the only case folding SQLite applies. */
  function Lower(c: char): (r: char)
    ensures !('A' <= r <= 'Z')
    ensures 'A' <= c <= 'Z' ==> r as int == c as int + 32
    ensures !('A' <= c <= 'Z') ==> r == c
  {
    if 'A' <= c <= 'Z' then (c as int + 32) as char else c
  }

  function Fold(s: string): string
  {
    seq(|s|, i requires 0 <= i < |s| => Lower(s[i]))
  }

  /** `q` occurs in `t` at offset `i` when case is ignored. */
  ghost predicate OccursAt(t: string, q: string, i: int)
  {
    0 <= i && i + |q| <= |t| && Fold(t[i..i + |q|]) == Fold(q)
  }

  /** Does `t` start with `q`, ignoring case? */
  function StartsWithFolded(t: string, q: string): bool
  {
    |q| <= |t| && forall k :: 0 <= k < |q| ==> Lower(t[k]) == Lower(q[k])
  }

  lemma {:induction false} StartsWithFoldedMeaning(t: string, q: string)
    ensures StartsWithFolded(t, q) <==> OccursAt(t, q, 0)
  {
    if |q| <= |t| {
      var a, b := Fold(t[0..|q|]), Fold(q);
      assert (forall k :: 0 <= k < |q| ==> Lower(t[k]) == Lower(q[k])) <==> a == b by {
        assert forall k :: 0 <= k < |q| ==> a[k] == Lower(t[k]) && b[k] == Lower(q[k]);
      }
    }
  }

  /** Case-insensitive substring test: the filter the history search intends. */
  function ContainsFolded(t: string, q: string): bool
    decreases |t|
  {
    if StartsWithFolded(t, q) then true
    else if t == [] then false
    else ContainsFolded(t[1..], q)
  }

  lemma {:induction false} ContainsFoldedMeaning(t: string, q: string)
    ensures ContainsFolded(t, q) <==> exists i :: OccursAt(t, q, i)
    decreases |t|
  {
    StartsWithFoldedMeaning(t, q);
    if StartsWithFolded(t, q) {
    } else if t == [] {
    } else {
      assert !OccursAt(t, q, 0);
      ContainsFoldedMeaning(t[1..], q);
      forall i | OccursAt(t[1..], q, i) ensures OccursAt(t, q, i + 1) {
        OccursShift(t, q, i);
      }
      forall i | OccursAt(t, q, i) ensures OccursAt(t[1..], q, i - 1) {
        assert i != 0;
        OccursShift(t, q, i - 1);
      }
    }
  }

  /** Dropping the first character shifts every occurrence left by one. */
  lemma OccursShift(t: string, q: string, i: int)
    requires t != [] && 0 <= i
    ensures OccursAt(t[1..], q, i) <==> OccursAt(t, q, i + 1)
  {
    if i + |q| <= |t| - 1 {
      assert t[1..][i..i + |q|] == t[i + 1..i + 1 + |q|];
    }
  }

  // ---------------------------------------------------------------------
  // The pattern match as the repository writes it.

  /** SQL LIKE: `%` matches any run of characters, `_` any one character. */
  function LikeMatch(t: string, p: string): bool
    decreases |t| + |p|
  {
    if p == [] then t == []
    else if p[0] == '%' then LikeMatch(t, p[1..]) || (t != [] && LikeMatch(t[1..], p))
    else t != [] && (p[0] == '_' || p[0] == t[0]) && LikeMatch(t[1..], p[1..])
  }

  /** `column.ilike(f"%{q}%")` on SQLite: both sides lower-cased, then LIKE. */
  function IlikeAsWritten(t: string, q: string): bool
  {
    LikeMatch(Fold(t), Fold("%" + q + "%"))
  }

  predicate NoWildcards(q: string)
  {
    forall k :: 0 <= k < |q| ==> q[k] != '%' && q[k] != '_'
  }

  /** An underscore in the query matches a letter the query does not contain. */
  lemma UnderscoreIsWildcard()
    ensures IlikeAsWritten("abc", "a_c")
    ensures !ContainsFolded("abc", "a_c")
  {
    assert "%" + "a_c" + "%" == "%a_c%";
    assert Fold("abc") == "abc";
    assert Fold("%a_c%") == "%a_c%";
    assert LikeMatch("", "") && LikeMatch("", "%");
    assert LikeMatch("abc"[3..], "%a_c%"[4..]);
    assert LikeMatch("abc"[2..], "%a_c%"[3..]);
    assert LikeMatch("abc"[1..], "%a_c%"[2..]);
    assert LikeMatch("abc", "%a_c%"[1..]);
    assert !StartsWithFolded("abc", "a_c") by {
      assert Lower("abc"[1]) != Lower("a_c"[1]);
    }
    assert !StartsWithFolded("bc", "a_c");
    assert !StartsWithFolded("c", "a_c");
    assert !StartsWithFolded("", "a_c");
    assert "abc"[1..] == "bc" && "bc"[1..] == "c" && "c"[1..] == "";
  }

  lemma {:induction false} PercentMatchesAll(t: string)
    ensures LikeMatch(t, "%")
    decreases |t|
  {
    if t != [] {
      PercentMatchesAll(t[1..]);
    }
  }

  /** As written, an empty query gives the pattern `%%`, which every text matches. */
  lemma EmptyQueryMatchesAsWritten(t: string)
    ensures IlikeAsWritten(t, "")
  {
    assert Fold("%" + "" + "%") == "%%";
    assert "%%"[1..] == "%";
    PercentMatchesAll(Fold(t));
  }

  /** A literal pattern followed by `%` matches exactly the texts it prefixes. */
  lemma {:induction false} LiteralPrefix(t: string, p: string)
    requires NoWildcards(p)
    ensures LikeMatch(t, p + "%") <==> |p| <= |t| && t[..|p|] == p
    decreases |p|
  {
    if p == [] {
      assert p + "%" == "%";
      PercentMatchesAll(t);
    } else {
      assert (p + "%")[0] == p[0];
      assert (p + "%")[1..] == p[1..] + "%";
      if t != [] {
        LiteralPrefix(t[1..], p[1..]);
        if |p| <= |t| && t[..|p|] == p {
          assert t[1..][..|p| - 1] == t[..|p|][1..];
        }
        if p[0] == t[0] && |p| - 1 <= |t| - 1 && t[1..][..|p| - 1] == p[1..] {
          assert t[..|p|] == [t[0]] + t[1..][..|p| - 1];
        }
      }
    }
  }

  /** A leading `%` lets the rest of the pattern match any suffix. */
  lemma {:induction false} LeadingPercent(t: string, p: string)
    ensures LikeMatch(t, "%" + p) <==> exists i :: 0 <= i <= |t| && LikeMatch(t[i..], p)
    decreases |t|
  {
    assert ("%" + p)[0] == '%' && ("%" + p)[1..] == p;
    assert t[0..] == t;
    if t != [] {
      LeadingPercent(t[1..], p);
      forall i | 0 <= i <= |t| - 1 ensures t[1..][i..] == t[i + 1..] { }
      if exists i :: 0 <= i <= |t| && LikeMatch(t[i..], p) {
        var i :| 0 <= i <= |t| && LikeMatch(t[i..], p);
        if i > 0 {
          assert t[1..][i - 1..] == t[i..];
        }
      }
    }
  }

  lemma FoldKeepsWildcardsOut(q: string)
    ensures NoWildcards(q) <==> NoWildcards(Fold(q))
  {
    forall k | 0 <= k < |q|
      ensures (q[k] == '%' || q[k] == '_') <==> (Fold(q)[k] == '%' || Fold(q)[k] == '_')
    {
      assert Fold(q)[k] == Lower(q[k]);
    }
  }

  /** Without `%` or `_` in the query, the pattern as written is the substring test. */
  lemma IlikeAgreesWithoutWildcards(t: string, q: string)
    requires NoWildcards(q)
    ensures IlikeAsWritten(t, q) <==> ContainsFolded(t, q)
  {
    var ft, fq := Fold(t), Fold(q);
    assert Fold("%" + q + "%") == "%" + (fq + "%");
    FoldKeepsWildcardsOut(q);
    LeadingPercent(ft, fq + "%");
    ContainsFoldedMeaning(t, q);
    forall i | 0 <= i <= |ft|
      ensures LikeMatch(ft[i..], fq + "%") <==> OccursAt(t, q, i)
    {
      LiteralPrefix(ft[i..], fq);
      if i + |q| <= |t| {
        assert ft[i..][..|fq|] == Fold(t[i..i + |q|]);
      }
    }
    if ContainsFolded(t, q) {
      var i :| OccursAt(t, q, i);
      assert LikeMatch(ft[i..], fq + "%");
    }
  }
}
