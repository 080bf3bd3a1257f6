/**
 * Header cleaning of the loader (`clean_header`): lower-case the header,
 * turn every `$`, `.`, `(`, `)` and whitespace character into `_`, squeeze
 * runs of `_` into one and strip `_` from both ends. The loader applies it
 * to every comma-separated name of a blob's first line to obtain the
 * column names it looks rows up by.
 */
module Headers {
  import opened PyStr

  /** The class `[$\.\s()]` that `clean_header` replaces by `_`. */
  predicate IsSpecial(c: char) {
    c == '$' || c == '.' || c == '(' || c == ')' || IsSpace(c)
  }

  predicate IsUnderscore(c: char) {
    c == '_'
  }

  /** `re.sub('[$\.\s()]', '_', s)` */
  function Underscored(s: string): (r: string)
    ensures |r| == |s|
    ensures forall k :: 0 <= k < |s| ==> r[k] == if IsSpecial(s[k]) then '_' else s[k]
  {
    seq(|s|, k requires 0 <= k < |s| => if IsSpecial(s[k]) then '_' else s[k])
  }

  /** `re.sub('_+', '_', s)`: every maximal run of `_` becomes a single `_`. */
  function Squeezed(s: string): (r: string)
    ensures |r| <= |s|
    ensures forall k :: 0 <= k < |r| ==> r[k] in s
  {
    if |s| < 2 then s
    else if s[0] == '_' && s[1] == '_' then Squeezed(s[1..])
    else [s[0]] + Squeezed(s[1..])
  }

  /** `clean_header` (data-loader/load_data.py) */
  function CleanHeader(header: string): string
  {
    Strip(Squeezed(Underscored(Lower(header))), IsUnderscore)
  }

  /** No two consecutive underscores. */
  predicate NoDoubleUnderscore(s: string) {
    forall k :: 0 <= k < |s| - 1 ==> !(s[k] == '_' && s[k + 1] == '_')
  }

  /** What a cleaned header looks like. */
  predicate Clean(h: string) {
    && (forall k :: 0 <= k < |h| ==> !('A' <= h[k] <= 'Z') && !IsSpecial(h[k]))
    && NoDoubleUnderscore(h)
    && (h != [] ==> h[0] != '_' && h[|h| - 1] != '_')
  }

  /** The characters that cleaning never touches: neither special nor `_`, in order. */
  function Kept(s: string): string
  {
    if s == [] then []
    else (if IsSpecial(s[0]) || s[0] == '_' then [] else [s[0]]) + Kept(s[1..])
  }

  lemma {:induction false} KeptAppend(a: string, b: string)
    ensures Kept(a + b) == Kept(a) + Kept(b)
  {
    if a != [] {
      assert (a + b)[1..] == a[1..] + b;
      KeptAppend(a[1..], b);
    } else {
      assert a + b == b;
    }
  }

  lemma {:induction false} KeptOfUnderscores(s: string)
    requires forall k :: 0 <= k < |s| ==> s[k] == '_'
    ensures Kept(s) == []
  {
    if s != [] {
      KeptOfUnderscores(s[1..]);
    }
  }

  lemma {:induction false} KeptUnderscored(s: string)
    ensures Kept(Underscored(s)) == Kept(s)
  {
    if s != [] {
      assert Underscored(s)[1..] == Underscored(s[1..]);
      KeptUnderscored(s[1..]);
    }
  }

  /** Squeezing removes only underscores and leaves no run of two. */
  lemma {:induction false} SqueezedFacts(s: string)
    ensures Kept(Squeezed(s)) == Kept(s)
    ensures NoDoubleUnderscore(Squeezed(s))
    ensures |s| >= 1 ==> |Squeezed(s)| >= 1 && Squeezed(s)[0] == s[0]
  {
    if |s| >= 2 {
      SqueezedFacts(s[1..]);
      if s[0] == '_' && s[1] == '_' {
        assert Kept(s) == Kept(s[1..]);
      } else {
        var r := Squeezed(s);
        assert r == [s[0]] + Squeezed(s[1..]);
        assert Kept(r) == Kept(s) by {
          assert r[1..] == Squeezed(s[1..]);
        }
        forall k | 0 <= k < |r| - 1
          ensures !(r[k] == '_' && r[k + 1] == '_')
        {
          if k > 0 {
            assert r[k] == Squeezed(s[1..])[k - 1];
          }
        }
      }
    }
  }

  /** Squeezing a string that has no run of two underscores changes nothing. */
  lemma {:induction false} SqueezedNoDouble(s: string)
    requires NoDoubleUnderscore(s)
    ensures Squeezed(s) == s
  {
    if |s| >= 2 {
      assert NoDoubleUnderscore(s[1..]) by {
        forall k | 0 <= k < |s[1..]| - 1
          ensures !(s[1..][k] == '_' && s[1..][k + 1] == '_')
        {
          assert s[1..][k] == s[k + 1];
        }
      }
      SqueezedNoDouble(s[1..]);
      assert !(s[0] == '_' && s[1] == '_');
      assert [s[0]] + s[1..] == s;
    }
  }

  /** Stripping `_` keeps the untouched characters and cannot create a run of two. */
  lemma StripUnderscoreFacts(q: string)
    ensures Kept(Strip(q, IsUnderscore)) == Kept(q)
    ensures NoDoubleUnderscore(q) ==> NoDoubleUnderscore(Strip(q, IsUnderscore))
    ensures forall k :: 0 <= k < |Strip(q, IsUnderscore)| ==> Strip(q, IsUnderscore)[k] in q
  {
    var r := Strip(q, IsUnderscore);
    var i := Leading(q, IsUnderscore);
    StripKept(q, r, i);
    forall k | 0 <= k < |r|
      ensures r[k] == q[i + k] && r[k] in q
    {
      assert r[k] == q[i..][k];
    }
    if NoDoubleUnderscore(q) {
      forall k | 0 <= k < |r| - 1
        ensures !(r[k] == '_' && r[k + 1] == '_')
      {
        assert r[k] == q[i + k] && r[k + 1] == q[i + k + 1];
      }
    }
  }

  lemma StripKept(q: string, r: string, i: nat)
    requires i + |r| <= |q| && r == q[i..][..|r|]
    requires forall k :: 0 <= k < i ==> q[k] == '_'
    requires forall k :: i + |r| <= k < |q| ==> q[k] == '_'
    ensures Kept(r) == Kept(q)
  {
    var a, c := q[..i], q[i + |r|..];
    assert q == a + r + c;
    KeptAppend(a + r, c);
    KeptAppend(a, r);
    KeptOfUnderscores(a);
    KeptOfUnderscores(c);
  }

  lemma {:induction false} AllowedChars(header: string)
    ensures forall k :: 0 <= k < |Underscored(Lower(header))| ==>
              var c := Underscored(Lower(header))[k]; !('A' <= c <= 'Z') && !IsSpecial(c)
  {
  }

  /**
   * Every cleaned header is lower-case, holds no `$`, `.`, `(`, `)` or
   * whitespace, has no `__`, neither starts nor ends with `_`, and keeps
   * every other character of the lower-cased input in order.
   */
  lemma CleanHeaderShape(header: string)
    ensures Clean(CleanHeader(header))
    ensures Kept(CleanHeader(header)) == Kept(Lower(header))
  {
    var t := Underscored(Lower(header));
    var q := Squeezed(t);
    var r := Strip(q, IsUnderscore);
    assert r == CleanHeader(header);
    KeptUnderscored(Lower(header));
    SqueezedFacts(t);
    StripUnderscoreFacts(q);
    AllowedChars(header);
    forall k | 0 <= k < |r|
      ensures !('A' <= r[k] <= 'Z') && !IsSpecial(r[k])
    {
      assert r[k] in q;
      var j :| 0 <= j < |q| && q[j] == r[k];
      assert q[j] in t;
    }
  }

  /** A header that is already clean comes out of cleaning unchanged. */
  lemma CleanIsFixed(h: string)
    requires Clean(h)
    ensures CleanHeader(h) == h
  {
    assert Lower(h) == h;
    assert Underscored(h) == h;
    SqueezedNoDouble(h);
    var r := Strip(h, IsUnderscore);
    var i := Leading(h, IsUnderscore);
    if h != [] {
      assert !IsUnderscore(h[0]) && !IsUnderscore(h[|h| - 1]);
      assert i == 0 && i + |r| == |h|;
    }
  }

  /** Cleaning is idempotent. */
  lemma CleanHeaderIdempotent(header: string)
    ensures CleanHeader(CleanHeader(header)) == CleanHeader(header)
  {
    CleanHeaderShape(header);
    CleanIsFixed(CleanHeader(header));
  }

  /** A header made only of special characters and underscores cleans to "". */
  lemma CleanOfSpecialsIsEmpty(header: string)
    requires forall k :: 0 <= k < |header| ==> IsSpecial(header[k]) || header[k] == '_'
    ensures CleanHeader(header) == ""
  {
    var low := Lower(header);
    assert Kept(low) == [] by {
      forall k | 0 <= k < |low| ensures IsSpecial(low[k]) || low[k] == '_' {
        assert low[k] == LowerChar(header[k]);
      }
      KeptAllDropped(low);
    }
    var r := CleanHeader(header);
    assert Clean(r) && Kept(r) == [] by {
      CleanHeaderShape(header);
    }
    if r != [] {
      KeptEmptyMeansUnderscores(r);
      assert false;
    }
  }

  lemma {:induction false} KeptAllDropped(s: string)
    requires forall k :: 0 <= k < |s| ==> IsSpecial(s[k]) || s[k] == '_'
    ensures Kept(s) == []
  {
    if s != [] {
      KeptAllDropped(s[1..]);
    }
  }

  lemma {:induction false} KeptEmptyMeansUnderscores(s: string)
    requires Kept(s) == []
    requires forall k :: 0 <= k < |s| ==> !IsSpecial(s[k])
    ensures forall k :: 0 <= k < |s| ==> s[k] == '_'
  {
    if s != [] {
      KeptEmptyMeansUnderscores(s[1..]);
      forall k | 0 <= k < |s| ensures s[k] == '_' {
        if k > 0 { assert s[k] == s[1..][k - 1]; }
      }
    }
  }

  /** A prefix without `__` that does not end in `_` passes through squeezing untouched. */
  lemma {:induction false} SqueezedPrefix(a: string, t: string)
    requires NoDoubleUnderscore(a)
    requires a != [] ==> a[|a| - 1] != '_'
    ensures Squeezed(a + t) == a + Squeezed(t)
  {
    if a == [] {
      assert a + t == t;
    } else if |a + t| >= 2 {
      var s := a + t;
      assert !(s[0] == '_' && s[1] == '_');
      assert s[1..] == a[1..] + t;
      assert NoDoubleUnderscore(a[1..]) by {
        forall k | 0 <= k < |a[1..]| - 1
          ensures !(a[1..][k] == '_' && a[1..][k + 1] == '_')
        {
          assert a[1..][k] == a[k + 1] && a[1..][k + 1] == a[k + 2];
        }
      }
      SqueezedPrefix(a[1..], t);
      assert [a[0]] + (a[1..] + Squeezed(t)) == a + Squeezed(t);
    }
  }

  predicate Underscores(s: string) {
    forall k :: 0 <= k < |s| ==> s[k] == '_'
  }

  /** Characters that cleaning turns into a separator: the class `[$\.\s()]` and `_` itself. */
  predicate Separators(s: string) {
    forall k :: 0 <= k < |s| ==> IsSpecial(s[k]) || s[k] == '_'
  }

  lemma UnderscoresAppend(a: string, b: string)
    requires Underscores(a) && Underscores(b)
    ensures Underscores(a + b)
  {
  }

  /** Squeezing works piece by piece wherever the pieces do not meet in `__`. */
  lemma {:induction false} SqueezedSplit(a: string, t: string)
    requires a == [] || t == [] || a[|a| - 1] != '_' || t[0] != '_'
    ensures Squeezed(a + t) == Squeezed(a) + Squeezed(t)
  {
    var s := a + t;
    if a == [] {
      assert s == t;
    } else if t == [] {
      assert s == a;
    } else if |a| == 1 {
      assert s[0] == a[0] && s[1] == t[0] && s[1..] == t;
      assert Squeezed(s) == a + Squeezed(t);
    } else {
      assert s[0] == a[0] && s[1] == a[1] && s[1..] == a[1..] + t;
      SqueezedSplit(a[1..], t);
      if !(a[0] == '_' && a[1] == '_') {
        Regroup3([a[0]], Squeezed(a[1..]), Squeezed(t));
      }
    }
  }


  /** A run of underscores squeezes to a single underscore. */
  lemma {:induction false} SqueezedRun(w: string)
    requires w != [] && Underscores(w)
    ensures Squeezed(w) == "_"
  {
    if |w| >= 2 {
      SqueezedRun(w[1..]);
    }
  }

  /** Squeezing keeps both ends of a text that neither starts nor ends with `_`. */
  lemma SqueezedEnds(m: string)
    requires m != [] && m[0] != '_' && m[|m| - 1] != '_'
    ensures var r := Squeezed(m); r != [] && r[0] == m[0] && r[|r| - 1] == m[|m| - 1]
  {
    SqueezedFacts(m);
    var c := m[|m| - 1];
    assert m == m[..|m| - 1] + [c];
    SqueezedSplit(m[..|m| - 1], [c]);
  }

  /** Stripping `_` from the left removes exactly a leading run of underscores. */
  lemma {:induction false} LStripRun(p: string, t: string)
    requires Underscores(p)
    requires t == [] || t[0] != '_'
    ensures LStrip(p + t, IsUnderscore) == t
  {
    if p == [] {
      assert p + t == t;
    } else {
      assert (p + t)[1..] == p[1..] + t;
      LStripRun(p[1..], t);
    }
  }

  /** Stripping `_` from the right removes exactly a trailing run of underscores. */
  lemma {:induction false} RStripRun(t: string, q: string)
    requires Underscores(q)
    requires t == [] || t[|t| - 1] != '_'
    ensures RStrip(t + q, IsUnderscore) == t
  {
    if q == [] {
      assert t + q == t;
    } else {
      var n := |q| - 1;
      assert (t + q)[..|t + q| - 1] == t + q[..n];
      RStripRun(t, q[..n]);
    }
  }

  /** `strip('_')` is determined by the cut: underscores outside, none at the ends of what is kept. */
  lemma StripUnique(s: string, p: string, m: string, q: string)
    requires s == p + (m + q)
    requires Underscores(p) && Underscores(q)
    requires m != [] ==> m[0] != '_' && m[|m| - 1] != '_'
    ensures Strip(s, IsUnderscore) == m
  {
    if m == [] {
      assert s == p + q;
      UnderscoresAppend(p, q);
      LStripRun(s, []);
      assert s + [] == s;
    } else {
      LStripRun(p, m + q);
      RStripRun(m, q);
    }
  }



  /** Cleaning a run of underscores leaves nothing. */
  lemma UnderscoresCleanEmpty(x: string)
    requires Underscores(x)
    ensures Strip(Squeezed(x), IsUnderscore) == ""
  {
    var q := Squeezed(x);
    SqueezedUnderscores(x);
    StripUnique(q, q, "", "");
  }

  lemma {:induction false} SqueezedUnderscores(e: string)
    requires Underscores(e)
    ensures Underscores(Squeezed(e))
  {
    if |e| >= 2 {
      SqueezedUnderscores(e[1..]);
    }
  }

  /** A text between two runs of underscores cleans to its own squeezed form. */
  lemma SqueezeStripCore(e1: string, m: string, e2: string)
    requires Underscores(e1) && Underscores(e2)
    requires m != [] && m[0] != '_' && m[|m| - 1] != '_'
    ensures Strip(Squeezed(e1 + (m + e2)), IsUnderscore) == Squeezed(m)
  {
    var s1, sm, s2 := Squeezed(e1), Squeezed(m), Squeezed(e2);
    var t := m + e2;
    assert t[0] == m[0];
    SqueezedSplit(m, e2);
    SqueezedSplit(e1, t);
    SqueezedUnderscores(e1);
    SqueezedUnderscores(e2);
    SqueezedEnds(m);
    StripUnique(s1 + (sm + s2), s1, sm, s2);
  }


  /** A text with a character other than `_` is a core between two runs of underscores. */
  lemma {:induction false} CoreOf(x: string) returns (p: string, m: string, q: string)
    requires !Underscores(x)
    ensures x == p + (m + q) && Underscores(p) && Underscores(q)
    ensures m != [] && m[0] != '_' && m[|m| - 1] != '_'
  {
    if x[0] == '_' {
      assert !Underscores(x[1..]) by {
        var k :| 0 <= k < |x| && x[k] != '_';
        assert x[1..][k - 1] == x[k];
      }
      var p';
      p', m, q := CoreOf(x[1..]);
      p := "_" + p';
      assert x == [x[0]] + x[1..];
      assert x == p + (m + q);
    } else {
      p := "";
      m, q := TrailOf(x);
    }
  }

  /** A text that starts with a character other than `_` is a core followed by a run of underscores. */
  lemma {:induction false} TrailOf(x: string) returns (m: string, q: string)
    requires x != [] && x[0] != '_'
    ensures x == m + q && Underscores(q)
    ensures m != [] && m[0] == x[0] && m[|m| - 1] != '_'
  {
    var n := |x| - 1;
    if x[n] != '_' {
      m, q := x, "";
    } else {
      var q';
      m, q' := TrailOf(x[..n]);
      q := q' + "_";
      assert x == x[..n] + [x[n]];
    }
  }




  lemma UnderscoredLowerAppend(a: string, b: string)
    ensures Underscored(Lower(a + b)) == Underscored(Lower(a)) + Underscored(Lower(b))
  {
    assert Lower(a + b) == Lower(a) + Lower(b);
  }

  lemma SeparatorsUnderscored(sep: string)
    requires Separators(sep)
    ensures Underscores(Underscored(Lower(sep)))
  {
    forall k | 0 <= k < |sep| ensures Underscored(Lower(sep))[k] == '_' {
      assert Lower(sep)[k] == LowerChar(sep[k]);
    }
  }

  /** A cleaned header that is not empty comes from a text with a character other than `_`. */
  lemma NonEmptyHasCore(a: string)
    requires CleanHeader(a) != []
    ensures !Underscores(Underscored(Lower(a)))
  {
    var x := Underscored(Lower(a));
    if Underscores(x) {
      UnderscoresCleanEmpty(x);
      assert false;
    }
  }

  lemma Regroup3(r: string, s: string, t: string)
    ensures r + (s + t) == r + s + t
  {
  }

  /** Regrouping the pieces of two cores and the separator between them. */
  lemma Regroup(x: string, u: string, y: string, p1: string, m1: string, q1: string,
                p2: string, m2: string, q2: string)
    requires x == p1 + (m1 + q1) && y == p2 + (m2 + q2)
    ensures x + u + y == p1 + ((m1 + ((q1 + (u + p2)) + m2)) + q2)
  {
  }

  /** A header that cleans to something: its underscored form around a core, which squeezes to the result. */
  lemma CleanCore(a: string) returns (p: string, m: string, q: string)
    requires CleanHeader(a) != []
    ensures Underscored(Lower(a)) == p + (m + q) && Underscores(p) && Underscores(q)
    ensures m != [] && m[0] != '_' && m[|m| - 1] != '_'
    ensures CleanHeader(a) == Squeezed(m)
  {
    NonEmptyHasCore(a);
    p, m, q := CoreOf(Underscored(Lower(a)));
    SqueezeStripCore(p, m, q);
  }

  /** Two cores with a run of underscores between them clean to their squeezed forms joined by one `_`. */
  lemma JoinCores(p1: string, m1: string, q1: string, u: string, p2: string, m2: string, q2: string)
    requires Underscores(p1) && Underscores(q1) && Underscores(p2) && Underscores(q2)
    requires u != [] && Underscores(u)
    requires m1 != [] && m1[0] != '_' && m1[|m1| - 1] != '_'
    requires m2 != [] && m2[0] != '_' && m2[|m2| - 1] != '_'
    ensures Strip(Squeezed((p1 + (m1 + q1)) + u + (p2 + (m2 + q2))), IsUnderscore)
            == Squeezed(m1) + "_" + Squeezed(m2)
  {
    var w := q1 + (u + p2);
    UnderscoresAppend(u, p2);
    UnderscoresAppend(q1, u + p2);
    var mid := m1 + (w + m2);
    assert mid != [] && mid[0] == m1[0];
    assert mid[|mid| - 1] == (w + m2)[|w + m2| - 1] == m2[|m2| - 1];
    Regroup(p1 + (m1 + q1), u, p2 + (m2 + q2), p1, m1, q1, p2, m2, q2);
    var c1, c2 := Squeezed(m1), Squeezed(m2);
    assert Squeezed(mid) == c1 + ("_" + c2) by {
      SqueezedSplit(m1, w + m2);
      SqueezedSplit(w, m2);
      SqueezedRun(w);
    }
    SqueezeStripCore(p1, mid, q2);
    Regroup3(c1, "_", c2);
  }

  /**
   * A run of special characters and underscores between two parts that each
   * clean to something becomes exactly one `_` between their cleaned forms.
   */
  lemma CleanHeaderJoin(a: string, sep: string, b: string)
    requires sep != [] && Separators(sep)
    requires CleanHeader(a) != [] && CleanHeader(b) != []
    ensures CleanHeader(a + sep + b) == CleanHeader(a) + "_" + CleanHeader(b)
  {
    var u := Underscored(Lower(sep));
    SeparatorsUnderscored(sep);
    var p1, m1, q1 := CleanCore(a);
    var p2, m2, q2 := CleanCore(b);
    assert Underscored(Lower(a + sep + b)) == (p1 + (m1 + q1)) + u + (p2 + (m2 + q2)) by {
      UnderscoredLowerAppend(a + sep, b);
      UnderscoredLowerAppend(a, sep);
    }
    JoinCores(p1, m1, q1, u, p2, m2, q2);
  }



  /** A header of characters that are neither special nor `_` is only lower-cased. */
  lemma CleanHeaderWord(w: string)
    requires forall k :: 0 <= k < |w| ==> !IsSpecial(w[k]) && w[k] != '_'
    ensures CleanHeader(w) == Lower(w)
  {
    var l := Lower(w);
    assert Lower(l) == l;
    assert Clean(l) by {
      forall k | 0 <= k < |l| ensures !IsSpecial(l[k]) && l[k] != '_' {
        assert l[k] == LowerChar(w[k]);
      }
    }
    CleanIsFixed(l);
  }

  /** Special characters and underscores at either end of a header do not change its cleaned form. */
  lemma CleanHeaderTrim(s1: string, a: string, s2: string)
    requires Separators(s1) && Separators(s2)
    ensures CleanHeader(s1 + a + s2) == CleanHeader(a)
  {
    var e1, x, e2 := Underscored(Lower(s1)), Underscored(Lower(a)), Underscored(Lower(s2));
    UnderscoredLowerAppend(s1 + a, s2);
    UnderscoredLowerAppend(s1, a);
    SeparatorsUnderscored(s1);
    SeparatorsUnderscored(s2);
    if Underscores(x) {
      UnderscoresCleanEmpty(x);
      assert Underscores(e1 + x + e2);
      UnderscoresCleanEmpty(e1 + x + e2);
    } else {
      var p, m, q := CoreOf(x);
      assert e1 + x + e2 == (e1 + p) + (m + (q + e2));
      SqueezeStripCore(e1 + p, m, q + e2);
      SqueezeStripCore(p, m, q);
    }
  }

  /** The header cells the collector writes for the pages it scrapes clean to the loader's column names. */
  lemma CleanHeaderExamples()
    ensures CleanHeader("Offer Price ($)") == "offer_price"
    ensures CleanHeader("Shares(millions)") == "shares_millions"
    ensures CleanHeader("1st Day Close") == "1st_day_close"
  {
    OfferPriceExample();
    SharesExample();
    FirstDayCloseExample();
  }

  lemma OfferPriceExample()
    ensures CleanHeader("Offer Price ($)") == "offer_price"
  {
    calc {
      CleanHeader("Offer Price ($)");
      == { OfferPriceUnderscored(); }
      Strip(Squeezed("offer_price" + "____"), IsUnderscore);
      == { OfferPriceSqueezed(); }
      Strip("offer_price_", IsUnderscore);
      == { OfferPriceStripped(); }
      "offer_price";
    }
  }

  lemma OfferPriceUnderscored()
    ensures Underscored(Lower("Offer Price ($)")) == "offer_price" + "____"
  {
    assert Lower("Offer Price ($)") == "offer price ($)";
  }

  lemma OfferPriceSqueezed()
    ensures Squeezed("offer_price" + "____") == "offer_price_"
  {
    assert NoDoubleUnderscore("offer_price");
    SqueezedPrefix("offer_price", "____");
    assert Squeezed("____") == "_";
  }

  lemma OfferPriceStripped()
    ensures Strip("offer_price_", IsUnderscore) == "offer_price"
  {
    assert LStrip("offer_price_", IsUnderscore) == "offer_price_";
  }

  lemma SharesExample()
    ensures CleanHeader("Shares(millions)") == "shares_millions"
  {
    calc {
      CleanHeader("Shares(millions)");
      == { SharesUnderscored(); }
      Strip(Squeezed("shares_millions_"), IsUnderscore);
      == { SharesSqueezed(); }
      Strip("shares_millions_", IsUnderscore);
      == { SharesStripped(); }
      "shares_millions";
    }
  }

  lemma SharesUnderscored()
    ensures Underscored(Lower("Shares(millions)")) == "shares_millions_"
  {
    assert Lower("Shares(millions)") == "shares(millions)";
  }

  lemma SharesSqueezed()
    ensures Squeezed("shares_millions_") == "shares_millions_"
  {
    assert NoDoubleUnderscore("shares_millions_");
    SqueezedNoDouble("shares_millions_");
  }

  lemma SharesStripped()
    ensures Strip("shares_millions_", IsUnderscore) == "shares_millions"
  {
    assert LStrip("shares_millions_", IsUnderscore) == "shares_millions_";
  }

  lemma FirstDayCloseExample()
    ensures CleanHeader("1st Day Close") == "1st_day_close"
  {
    calc {
      CleanHeader("1st Day Close");
      == { FirstDayCloseLower(); }
      CleanHeader("1st_day_close");
      == { FirstDayCloseClean(); CleanIsFixed("1st_day_close"); }
      "1st_day_close";
    }
  }

  lemma FirstDayCloseLower()
    ensures Underscored(Lower("1st Day Close")) == Underscored(Lower("1st_day_close"))
  {
    assert Lower("1st Day Close") == "1st day close";
    assert Lower("1st_day_close") == "1st_day_close";
  }

  lemma FirstDayCloseClean()
    ensures Clean("1st_day_close")
  {
  }
}
