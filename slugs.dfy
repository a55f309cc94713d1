/** BaseManager::slug: trim, lower-case, replace every byte outside [a-z0-9-] by '-', squeeze runs of '-'. */
module Slugs {
  import opened Ascii

  /** The bytes PHP's trim() strips by default: space, tab, line feed, carriage return, NUL, vertical tab. */
  predicate IsTrimmed(c: char) {
    c == ' ' || c == '\t' || c == '\n' || c == '\r' || c == '\0' || c == '\U{B}'
  }

  /** The alphabet of a slug, the complement of the class [^a-z0-9-]. */
  predicate IsSlugChar(c: char) { IsLower(c) || IsDigit(c) || c == '-' }

  predicate AllSlugChars(s: string) { forall i :: 0 <= i < |s| ==> IsSlugChar(s[i]) }

  /** No two adjacent bytes of s are both '-'. */
  predicate NoDoubleHyphen(s: string) {
    |s| < 2 || (!(s[0] == '-' && s[1] == '-') && NoDoubleHyphen(s[1..]))
  }

  /** trim() from the front. */
  function TrimStart(s: string): string {
    if |s| > 0 && IsTrimmed(s[0]) then TrimStart(s[1..]) else s
  }

  /** trim() from the back. */
  function TrimEnd(s: string): string {
    if |s| > 0 && IsTrimmed(s[|s| - 1]) then TrimEnd(s[..|s| - 1]) else s
  }

  /** trim($str). */
  function Trim(s: string): string {
    TrimEnd(TrimStart(s))
  }

  /** strtolower($str), byte by byte. */
  function ToLower(s: string): string {
    seq(|s|, i requires 0 <= i < |s| => LowerChar(s[i]))
  }

  /** preg_replace('/[^a-z0-9-]/', '-', $str): each byte outside the alphabet becomes one '-'. */
  function ReplaceOthers(s: string): string {
    seq(|s|, i requires 0 <= i < |s| => if IsSlugChar(s[i]) then s[i] else '-')
  }

  /** preg_replace('/-+/', '-', $str): each maximal run of '-' becomes a single '-'. */
  function CollapseHyphens(s: string): string {
    if |s| < 2 then s
    else if s[0] == '-' && s[1] == '-' then CollapseHyphens(s[1..])
    else [s[0]] + CollapseHyphens(s[1..])
  }

  /** BaseManager::slug: the result is made of [a-z0-9-] only and holds no "--". */
  function Slug(s: string): (r: string)
    ensures AllSlugChars(r)
    ensures NoDoubleHyphen(r)
  {
    var t := ReplaceOthers(ToLower(Trim(s)));
    CollapseSpec(t);
    CollapseHyphens(t)
  }

  /** The bytes of s other than '-', in order. */
  function RemoveHyphens(s: string): string {
    if s == [] then [] else (if s[0] == '-' then [] else [s[0]]) + RemoveHyphens(s[1..])
  }

  /** The lower-case letters and digits of s, in order. */
  function LettersAndDigits(s: string): string {
    if s == [] then [] else (if IsLower(s[0]) || IsDigit(s[0]) then [s[0]] else []) + LettersAndDigits(s[1..])
  }

  /** The recursive definition of NoDoubleHyphen says, position by position, that no '-' follows a '-'. */
  lemma {:induction false} NoDoubleHyphenAt(s: string, i: int)
    requires NoDoubleHyphen(s) && 0 <= i < |s| - 1
    ensures !(s[i] == '-' && s[i + 1] == '-')
  {
    if i > 0 {
      NoDoubleHyphenAt(s[1..], i - 1);
    }
  }

  /** Conversely, a string with no '-' right after a '-' satisfies the recursive definition. */
  lemma {:induction false} NoDoubleHyphenFromPositions(s: string)
    requires forall i :: 0 <= i < |s| - 1 ==> !(s[i] == '-' && s[i + 1] == '-')
    ensures NoDoubleHyphen(s)
  {
    if |s| >= 2 {
      assert !(s[0] == '-' && s[1] == '-');
      forall i | 0 <= i < |s[1..]| - 1 ensures !(s[1..][i] == '-' && s[1..][i + 1] == '-') {
        assert s[1..][i] == s[i + 1] && s[1..][i + 1] == s[i + 2];
      }
      NoDoubleHyphenFromPositions(s[1..]);
    }
  }

  /** TrimStart drops a leading run of trimmed bytes and stops at the first other byte. */
  lemma {:induction false} TrimStartSpec(s: string)
    ensures var r := TrimStart(s);
      |r| <= |s| && r == s[|s| - |r|..] &&
      (forall i :: 0 <= i < |s| - |r| ==> IsTrimmed(s[i])) &&
      (r == [] || !IsTrimmed(r[0]))
  {
    if |s| > 0 && IsTrimmed(s[0]) {
      TrimStartSpec(s[1..]);
    }
  }

  /** TrimEnd drops a trailing run of trimmed bytes and stops at the last other byte. */
  lemma {:induction false} TrimEndSpec(s: string)
    ensures var r := TrimEnd(s);
      |r| <= |s| && r == s[..|r|] &&
      (forall i :: |r| <= i < |s| ==> IsTrimmed(s[i])) &&
      (r == [] || !IsTrimmed(r[|r| - 1]))
  {
    if |s| > 0 && IsTrimmed(s[|s| - 1]) {
      TrimEndSpec(s[..|s| - 1]);
    }
  }

  /** trim() yields the infix of s between its leading and its trailing run of trimmed bytes. */
  lemma TrimSpec(s: string)
    ensures var r := Trim(s); var k := |s| - |TrimStart(s)|;
      |TrimStart(s)| <= |s| && k + |r| <= |s| && r == s[k..k + |r|] &&
      (forall i :: 0 <= i < k ==> IsTrimmed(s[i])) &&
      (forall i :: k + |r| <= i < |s| ==> IsTrimmed(s[i])) &&
      (r == [] || (!IsTrimmed(r[0]) && !IsTrimmed(r[|r| - 1])))
  {
    var u := TrimStart(s);
    TrimStartSpec(s);
    TrimEndSpec(u);
    var k := |s| - |u|;
    var r := TrimEnd(u);
    forall i | k + |r| <= i < |s| ensures IsTrimmed(s[i]) {
      assert s[i] == u[i - k];
    }
  }

  /** A string without trimmed bytes is its own trim. */
  lemma TrimKeepsUntrimmed(s: string)
    requires forall i :: 0 <= i < |s| ==> !IsTrimmed(s[i])
    ensures Trim(s) == s
  {
  }

  /** What squeezing guarantees: no "--", first and last byte kept, no new byte introduced into a slug alphabet string. */
  lemma {:induction false} CollapseSpec(s: string)
    ensures var r := CollapseHyphens(s);
      |r| <= |s| &&
      (|s| > 0 ==> |r| > 0 && r[0] == s[0] && r[|r| - 1] == s[|s| - 1]) &&
      (AllSlugChars(s) ==> AllSlugChars(r)) &&
      NoDoubleHyphen(r)
  {
    if |s| >= 2 {
      CollapseSpec(s[1..]);
      if !(s[0] == '-' && s[1] == '-') {
        var t := CollapseHyphens(s[1..]);
        assert ([s[0]] + t)[1..] == t;
        if AllSlugChars(s) {
          assert AllSlugChars(s[1..]) by {
            forall i | 0 <= i < |s[1..]| ensures IsSlugChar(s[1..][i]) { assert s[1..][i] == s[i + 1]; }
          }
        }
      } else if AllSlugChars(s) {
        assert AllSlugChars(s[1..]) by {
          forall i | 0 <= i < |s[1..]| ensures IsSlugChar(s[1..][i]) { assert s[1..][i] == s[i + 1]; }
        }
      }
    }
  }

  /** Squeezing leaves a string without "--" as it is. */
  lemma {:induction false} CollapseKeepsSqueezed(s: string)
    requires NoDoubleHyphen(s)
    ensures CollapseHyphens(s) == s
  {
    if |s| >= 2 {
      CollapseKeepsSqueezed(s[1..]);
      assert s == [s[0]] + s[1..];
    }
  }

  /** Squeezing changes exactly the strings that contain "--". */
  lemma CollapseFixedPoints(s: string)
    ensures CollapseHyphens(s) == s <==> NoDoubleHyphen(s)
  {
    CollapseSpec(s);
    if NoDoubleHyphen(s) { CollapseKeepsSqueezed(s); }
  }

  /** Squeezing only drops hyphens: every other byte survives, in order. */
  lemma {:induction false} CollapseKeepsOtherChars(s: string)
    ensures RemoveHyphens(CollapseHyphens(s)) == RemoveHyphens(s)
  {
    if |s| >= 2 {
      CollapseKeepsOtherChars(s[1..]);
      if s[0] == '-' && s[1] == '-' {
        assert RemoveHyphens(s) == RemoveHyphens(s[1..]);
      } else {
        var t := CollapseHyphens(s[1..]);
        assert ([s[0]] + t)[1..] == t;
      }
    }
  }

  /** Replacing maps every byte outside the alphabet to '-', so only letters and digits remain once hyphens are dropped. */
  lemma {:induction false} ReplaceKeepsLettersAndDigits(s: string)
    ensures RemoveHyphens(ReplaceOthers(s)) == LettersAndDigits(s)
  {
    if s != [] {
      assert ReplaceOthers(s)[1..] == ReplaceOthers(s[1..]);
      ReplaceKeepsLettersAndDigits(s[1..]);
    }
  }

  /** Every lower-case letter and digit of the trimmed, lower-cased input reaches the slug, in order, and nothing else but '-'. */
  lemma SlugKeepsLettersAndDigits(s: string)
    ensures RemoveHyphens(Slug(s)) == LettersAndDigits(ToLower(Trim(s)))
  {
    CollapseKeepsOtherChars(ReplaceOthers(ToLower(Trim(s))));
    ReplaceKeepsLettersAndDigits(ToLower(Trim(s)));
  }

  /** A slug is its own slug. */
  lemma SlugIdempotent(s: string)
    ensures Slug(Slug(s)) == Slug(s)
  {
    var t := Slug(s);
    TrimKeepsUntrimmed(t);
    assert ToLower(t) == t;
    assert ReplaceOthers(t) == t;
    CollapseKeepsSqueezed(t);
  }

  /** Leading and trailing hyphens are kept: a slug starts (ends) with '-' exactly when the trimmed,
      lower-cased input starts (ends) with a byte outside [a-z0-9] . */
  lemma SlugEdges(s: string)
    requires Trim(s) != []
    ensures var t := ToLower(Trim(s)); var r := Slug(s);
      |r| > 0 &&
      (r[0] == '-' <==> !(IsLower(t[0]) || IsDigit(t[0]))) &&
      (r[|r| - 1] == '-' <==> !(IsLower(t[|t| - 1]) || IsDigit(t[|t| - 1])))
  {
    CollapseSpec(ReplaceOthers(ToLower(Trim(s))));
  }

  lemma AppendAssoc(a: string, b: string, c: string)
    ensures a + (b + c) == a + b + c
  {
  }

  /** One step of the squeeze: a byte in front of a non-empty rest. */
  lemma CollapseCons(c: char, t: string)
    requires t != []
    ensures CollapseHyphens([c] + t) ==
      if c == '-' && t[0] == '-' then CollapseHyphens(t) else [c] + CollapseHyphens(t)
  {
    assert ([c] + t)[1..] == t;
  }

  /** Squeezing works piecewise across a seam that is not "--". */
  lemma {:induction false} CollapseConcat(x: string, y: string)
    requires x == [] || y == [] || !(x[|x| - 1] == '-' && y[0] == '-')
    ensures CollapseHyphens(x + y) == CollapseHyphens(x) + CollapseHyphens(y)
  {
    if x == [] {
      assert x + y == y;
    } else if y == [] {
      assert x + y == x;
    } else if |x| == 1 {
      CollapseCons(x[0], y);
    } else {
      var t := x[1..];
      assert x + y == [x[0]] + (t + y) && x == [x[0]] + t;
      assert (t + y)[0] == t[0] && t[|t| - 1] == x[|x| - 1];
      CollapseCons(x[0], t + y);
      CollapseCons(x[0], t);
      CollapseConcat(t, y);
      AppendAssoc([x[0]], CollapseHyphens(t), CollapseHyphens(y));
    }
  }

  /** A run of one or more '-' squeezes to a single '-'. */
  lemma {:induction false} CollapseAllHyphens(h: string)
    requires |h| > 0 && forall i :: 0 <= i < |h| ==> h[i] == '-'
    ensures CollapseHyphens(h) == "-"
  {
    if |h| > 1 {
      assert h == [h[0]] + h[1..];
      CollapseCons(h[0], h[1..]);
      CollapseAllHyphens(h[1..]);
    }
  }

  /** Squeezing keeps words apart: a run of one or more '-' between two other bytes becomes exactly one '-'. */
  lemma CollapseRun(p: string, h: string, q: string)
    requires |h| > 0 && forall i :: 0 <= i < |h| ==> h[i] == '-'
    requires p == [] || p[|p| - 1] != '-'
    requires q == [] || q[0] != '-'
    ensures CollapseHyphens(p + h + q) == CollapseHyphens(p) + "-" + CollapseHyphens(q)
  {
    var hq := h + q;
    CollapseConcat(h, q);
    CollapseAllHyphens(h);
    assert hq[0] == '-';
    CollapseConcat(p, hq);
    AppendAssoc(p, h, q);
    AppendAssoc(CollapseHyphens(p), "-", CollapseHyphens(q));
  }

  /** preg_replace on a class works byte by byte, so it distributes over concatenation. */
  lemma ReplaceOthersConcat(a: string, b: string)
    ensures ReplaceOthers(a + b) == ReplaceOthers(a) + ReplaceOthers(b)
  {
    var l, r := ReplaceOthers(a + b), ReplaceOthers(a) + ReplaceOthers(b);
    forall i | 0 <= i < |l| ensures l[i] == r[i] {
      if i < |a| {
        assert (a + b)[i] == a[i];
      } else {
        assert (a + b)[i] == b[i - |a|];
      }
    }
  }

  /** Two words of the trimmed, lower-cased input separated by bytes outside [a-z0-9] are joined by exactly one '-'
      in the slug, and each word is slugged on its own. */
  lemma SlugSeparatesWords(s: string, p: string, m: string, q: string)
    requires ToLower(Trim(s)) == p + m + q
    requires |p| > 0 && (IsLower(p[|p| - 1]) || IsDigit(p[|p| - 1]))
    requires |q| > 0 && (IsLower(q[0]) || IsDigit(q[0]))
    requires |m| > 0 && forall i :: 0 <= i < |m| ==> !(IsLower(m[i]) || IsDigit(m[i]))
    ensures Slug(s) == CollapseHyphens(ReplaceOthers(p)) + "-" + CollapseHyphens(ReplaceOthers(q))
  {
    ReplaceOthersConcat(p + m, q);
    ReplaceOthersConcat(p, m);
    var rp, rm, rq := ReplaceOthers(p), ReplaceOthers(m), ReplaceOthers(q);
    assert forall i :: 0 <= i < |rm| ==> rm[i] == '-';
    assert rp[|rp| - 1] == p[|p| - 1] && rq[0] == q[0];
    CollapseRun(rp, rm, rq);
  }

  lemma SlugExampleHelloWorld()
    ensures Slug("  Hello_World!! 2024 ") == "hello-world-2024"
  {
    TrimExample();
    ToLowerExample();
    ReplaceExample();
    CollapseExample();
  }

  lemma SlugExampleHyphenRun()
    ensures Slug("a---b") == "a-b"
  {
    TrimKeepsUntrimmed("a---b");
    assert ToLower("a---b") == "a---b";
    assert ReplaceOthers("a---b") == "a---b";
    CollapseTripleHyphen("a", "b");
  }

  /** Trailing hyphens are not stripped. */
  lemma SlugExampleTrailingHyphen()
    ensures Slug("Hi!") == "hi-"
  {
    TrimKeepsUntrimmed("Hi!");
    var lower := ToLower("Hi!");
    assert lower[0] == 'h' && lower[1] == 'i' && lower[2] == '!';
    var replaced := ReplaceOthers("hi!");
    assert replaced[0] == 'h' && replaced[1] == 'i' && replaced[2] == '-';
    CollapseKeepsSqueezed("hi-");
  }

  lemma TrimExample()
    ensures Trim("  Hello_World!! 2024 ") == "Hello_World!! 2024"
  {
    TrimStartExample();
    var v := "Hello_World!! 2024";
    assert TrimEnd(v) == v;
    assert TrimEnd(v + " ") == v by { assert (v + " ")[..|v|] == v; }
    assert v + " " == "Hello_World!! 2024 ";
  }

  lemma TrimStartExample()
    ensures TrimStart("  Hello_World!! 2024 ") == "Hello_World!! 2024 "
  {
    var u := "Hello_World!! 2024 ";
    TrimStartTwoSpaces(u);
    assert "  " + u == "  Hello_World!! 2024 ";
  }

  lemma TrimStartTwoSpaces(u: string)
    requires |u| > 0 && !IsTrimmed(u[0])
    ensures TrimStart("  " + u) == u
  {
    var v := " " + u;
    assert TrimStart(u) == u;
    assert v[0] == ' ' && v[1..] == u;
    assert TrimStart(v) == u;
    assert ("  " + u)[0] == ' ' && ("  " + u)[1..] == v;
  }

  lemma ToLowerExample()
    ensures ToLower("Hello_World!! 2024") == "hello_world!! 2024"
  {
    var lower := ToLower("Hello_World!! 2024");
    assert lower[0] == 'h' && lower[6] == 'w';
    forall i | 0 <= i < |lower| ensures lower[i] == "hello_world!! 2024"[i] { }
  }

  lemma ReplaceExample()
    ensures ReplaceOthers("hello_world!! 2024") == "hello-world---2024"
  {
    var replaced := ReplaceOthers("hello_world!! 2024");
    forall i | 0 <= i < |replaced| ensures replaced[i] == "hello-world---2024"[i] { }
  }

  /** Squeezing a squeezed head that ends in a letter or digit, three hyphens and a squeezed tail that starts with one. */
  lemma CollapseTripleHyphen(p: string, q: string)
    requires |p| > 0 && p[|p| - 1] != '-' && NoDoubleHyphen(p)
    requires |q| > 0 && q[0] != '-' && NoDoubleHyphen(q)
    ensures CollapseHyphens(p + "---" + q) == p + "-" + q
  {
    CollapseRun(p, "---", q);
    CollapseKeepsSqueezed(p);
    CollapseKeepsSqueezed(q);
  }

  lemma HeadAndTailSqueezed()
    ensures NoDoubleHyphen("hello-world") && NoDoubleHyphen("2024")
  {
    HeadSqueezed();
    var t := "2024";
    assert forall i :: 0 <= i < |t| ==> t[i] != '-';
    NoDoubleHyphenFromPositions(t);
  }

  lemma HeadSqueezed()
    ensures NoDoubleHyphen("hello-world")
  {
    var s := "hello-world";
    assert forall i :: 0 <= i < |s| ==> (s[i] == '-' <==> i == 5);
    NoDoubleHyphenFromPositions(s);
  }

  lemma ConcatExample()
    ensures "hello-world" + "---" + "2024" == "hello-world---2024"
    ensures "hello-world" + "-" + "2024" == "hello-world-2024"
  {
  }

  lemma CollapseExample()
    ensures CollapseHyphens("hello-world---2024") == "hello-world-2024"
  {
    HeadAndTailSqueezed();
    assert CollapseHyphens("hello-world" + "---" + "2024") == "hello-world" + "-" + "2024" by {
      CollapseTripleHyphen("hello-world", "2024");
    }
    ConcatExample();
  }
}
