/** SQLite's `LIKE` operator, as the search handler uses it with the pattern
    `%q%`: `%` matches any run of characters, `_` any single character, and
    every other character matches itself with ASCII letters compared without
    regard to case. No ESCAPE clause is given, so `%` and `_` in the query
    are wildcards too. */
module SqlLike {

  /** ASCII-only case folding, as SQLite's built-in LIKE does. */
  function Lower(c: char): char {
    if 'A' <= c <= 'Z' then (c as int + 32) as char else c
  }

  predicate Like(s: string, p: string)
    decreases |s| + |p|
  {
    if p == [] then s == []
    else if p[0] == '%' then Like(s, p[1..]) || (s != [] && Like(s[1..], p))
    else s != [] && (p[0] == '_' || Lower(s[0]) == Lower(p[0])) && Like(s[1..], p[1..])
  }

  /** The pattern `%${q}%` of the search handler. */
  function Pattern(q: string): string {
    "%" + q + "%"
  }

  /** A query with no wildcard characters in it. */
  predicate Plain(q: string) {
    '%' !in q && '_' !in q
  }

  /** `q` occurs in `s` at position `i`, up to ASCII case. */
  predicate FoldedAt(s: string, q: string, i: int) {
    0 <= i && i + |q| <= |s| && forall k | 0 <= k < |q| :: Lower(s[i + k]) == Lower(q[k])
  }

  predicate ContainsFolded(s: string, q: string) {
    exists i | 0 <= i <= |s| :: FoldedAt(s, q, i)
  }

  lemma {:induction false} LikeAnything(s: string)
    ensures Like(s, "%")
  {
    if s != [] {
      LikeAnything(s[1..]);
    }
  }

  lemma {:induction false} LikeSelf(p: string)
    ensures Like(p, p)
  {
    if p != [] {
      LikeSelf(p[1..]);
      if p[0] == '%' {
        assert Like(p[1..], p);
      }
    }
  }

  lemma {:induction false} LikeExtend(t: string, p: string, b: string)
    requires Like(t, p)
    ensures Like(t + b, p + "%")
    decreases |t| + |p|
  {
    if p == [] {
      assert t + b == b && p + "%" == "%";
      LikeAnything(b);
    } else if p[0] == '%' {
      assert (p + "%")[1..] == p[1..] + "%";
      if Like(t, p[1..]) {
        LikeExtend(t, p[1..], b);
      } else {
        LikeExtend(t[1..], p, b);
        assert (t + b)[1..] == t[1..] + b;
      }
    } else {
      assert (p + "%")[1..] == p[1..] + "%";
      LikeExtend(t[1..], p[1..], b);
      assert (t + b)[1..] == t[1..] + b;
    }
  }

  /** Every text that contains `q` literally matches `%q%`, whatever `q` holds. */
  lemma {:induction false} ContainsMatches(a: string, q: string, b: string)
    ensures Like(a + q + b, Pattern(q))
  {
    if a == [] {
      LikeSelf(q);
      LikeExtend(q, q, b);
      assert a + q + b == q + b;
      assert Pattern(q)[1..] == q + "%";
    } else {
      ContainsMatches(a[1..], q, b);
      assert (a + q + b)[1..] == a[1..] + q + b;
    }
  }

  lemma {:induction false} PlainPrefix(t: string, q: string)
    requires Plain(q)
    ensures Like(t, q + "%") <==> FoldedAt(t, q, 0)
  {
    if q == [] {
      assert q + "%" == "%";
      LikeAnything(t);
    } else {
      assert (q + "%")[0] == q[0] && (q + "%")[1..] == q[1..] + "%";
      assert q[0] != '%' && q[0] != '_';
      assert Plain(q[1..]) by {
        assert forall c | c in q[1..] :: c in q;
      }
      if t != [] {
        PlainPrefix(t[1..], q[1..]);
        if FoldedAt(t, q, 0) {
          assert forall k | 0 <= k < |q[1..]| :: Lower(t[1..][k]) == Lower(q[1..][k]) by {
            forall k | 0 <= k < |q[1..]| ensures Lower(t[1..][k]) == Lower(q[1..][k]) {
              assert Lower(t[0 + (k + 1)]) == Lower(q[k + 1]);
            }
          }
          assert FoldedAt(t[1..], q[1..], 0);
        }
        if Lower(t[0]) == Lower(q[0]) && FoldedAt(t[1..], q[1..], 0) {
          forall k | 0 <= k < |q| ensures Lower(t[0 + k]) == Lower(q[k]) {
            if k > 0 {
              assert Lower(t[1..][0 + (k - 1)]) == Lower(q[1..][k - 1]);
            }
          }
        }
      }
    }
  }

  lemma {:induction false} LeadingPercent(s: string, r: string)
    ensures Like(s, "%" + r) <==> exists i :: 0 <= i <= |s| && Like(s[i..], r)
  {
    var p := "%" + r;
    assert p[0] == '%' && p[1..] == r;
    if s == [] {
      if Like(s, p) {
        assert Like(s[0..], r);
      }
    } else {
      LeadingPercent(s[1..], r);
      if Like(s, p) {
        if !Like(s, r) {
          var i :| 0 <= i <= |s[1..]| && Like(s[1..][i..], r);
          assert s[1..][i..] == s[i + 1..];
        } else {
          assert s[0..] == s;
        }
      }
      if exists i :: 0 <= i <= |s| && Like(s[i..], r) {
        var i :| 0 <= i <= |s| && Like(s[i..], r);
        if i == 0 {
          assert s[0..] == s;
        } else {
          assert s[1..][i - 1..] == s[i..];
        }
      }
    }
  }

  /** For a query without wildcards, `content LIKE '%q%'` holds exactly when
      `q` occurs in `content` up to ASCII case. */
  lemma PatternMeaning(s: string, q: string)
    requires Plain(q)
    ensures Like(s, Pattern(q)) <==> ContainsFolded(s, q)
  {
    assert Pattern(q) == "%" + (q + "%");
    LeadingPercent(s, q + "%");
    if Like(s, Pattern(q)) {
      var i :| 0 <= i <= |s| && Like(s[i..], q + "%");
      PlainPrefix(s[i..], q);
      assert FoldedAt(s, q, i) by {
        forall k | 0 <= k < |q| ensures Lower(s[i + k]) == Lower(q[k]) {
          assert Lower(s[i..][0 + k]) == Lower(q[k]);
        }
      }
    }
    if ContainsFolded(s, q) {
      var i :| 0 <= i <= |s| && FoldedAt(s, q, i);
      PlainPrefix(s[i..], q);
      assert FoldedAt(s[i..], q, 0) by {
        forall k | 0 <= k < |q| ensures Lower(s[i..][0 + k]) == Lower(q[k]) {
          assert Lower(s[i + k]) == Lower(q[k]);
        }
      }
    }
  }
}
