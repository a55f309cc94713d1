/** The entity reference "<bundleName>:<Name>" that BaseManager::decodeEntityName matches against
    the pattern #^<bundleName>:([a-z]+)$#i, with the bundle name taken literally. */
module EntityNames {
  import opened Wrappers
  import opened Ascii

  /** What ([a-z]+) matches under the caseless flag: a non-empty run of ASCII letters. */
  predicate IsName(s: string) {
    |s| > 0 && forall i :: 0 <= i < |s| ==> IsLetter(s[i])
  }

  /** ref is bundleName (up to the case of its letters), a colon and a name, and nothing else. */
  predicate IsReferenceTo(bundleName: string, ref: string) {
    |ref| > |bundleName| + 1 &&
    SameIgnoringCase(ref[..|bundleName|], bundleName) &&
    ref[|bundleName|] == ':' &&
    IsName(ref[|bundleName| + 1..])
  }

  /** Matches the literal lit at the front of s, letters compared caselessly; yields what follows. */
  function MatchLiteral(lit: string, s: string): Option<string> {
    if lit == [] then Some(s)
    else if s == [] || LowerChar(s[0]) != LowerChar(lit[0]) then None
    else MatchLiteral(lit[1..], s[1..])
  }

  /** Matches ([a-z]+)$ caselessly: true when s is a letter followed by letters up to the end. */
  function MatchLettersToEnd(s: string): bool {
    |s| > 0 && IsLetter(s[0]) && (|s| == 1 || MatchLettersToEnd(s[1..]))
  }

  /** The regular expression #^<bundleName>:([a-z]+)$#i applied to ref: the captured group on a match. */
  function MatchReference(bundleName: string, ref: string): Option<string> {
    match MatchLiteral(bundleName + ":", ref)
    case None => None
    case Some(rest) => if MatchLettersToEnd(rest) then Some(rest) else None
  }

  /** The literal matcher succeeds exactly on strings that begin with lit up to case, and yields the rest. */
  lemma {:induction false} MatchLiteralSpec(lit: string, s: string)
    ensures MatchLiteral(lit, s).Some? <==> |lit| <= |s| && SameIgnoringCase(s[..|lit|], lit)
    ensures MatchLiteral(lit, s).Some? ==> MatchLiteral(lit, s).value == s[|lit|..]
  {
    if lit != [] && s != [] {
      MatchLiteralSpec(lit[1..], s[1..]);
      if |lit| <= |s| {
        var a, b := s[..|lit|], lit;
        assert s[1..][..|lit| - 1] == a[1..];
        if SameIgnoringCase(a[1..], b[1..]) && LowerChar(a[0]) == LowerChar(b[0]) {
          forall i | 0 <= i < |a| ensures LowerChar(a[i]) == LowerChar(b[i]) {
            if i > 0 { assert a[1..][i - 1] == a[i] && b[1..][i - 1] == b[i]; }
          }
        }
        if SameIgnoringCase(a, b) {
          forall i | 0 <= i < |a| - 1 ensures LowerChar(a[1..][i]) == LowerChar(b[1..][i]) {
            assert a[1..][i] == a[i + 1] && b[1..][i] == b[i + 1];
          }
        }
      }
    }
  }

  /** The letters scanner agrees with the ([a-z]+)$ reading of IsName. */
  lemma {:induction false} MatchLettersToEndSpec(s: string)
    ensures MatchLettersToEnd(s) <==> IsName(s)
  {
    if |s| > 1 {
      MatchLettersToEndSpec(s[1..]);
      if IsName(s) {
        forall i | 0 <= i < |s[1..]| ensures IsLetter(s[1..][i]) { assert s[1..][i] == s[i + 1]; }
      }
      if IsLetter(s[0]) && IsName(s[1..]) {
        forall i | 0 <= i < |s| ensures IsLetter(s[i]) {
          if i > 0 { assert s[i] == s[1..][i - 1]; }
        }
      }
    }
  }

  /** The pattern matches exactly the references to the bundle, and captures everything after the colon. */
  lemma MatchReferenceSpec(bundleName: string, ref: string)
    ensures MatchReference(bundleName, ref).Some? <==> IsReferenceTo(bundleName, ref)
    ensures MatchReference(bundleName, ref).Some? ==>
      MatchReference(bundleName, ref).value == ref[|bundleName| + 1..]
  {
    var lit := bundleName + ":";
    MatchLiteralSpec(lit, ref);
    if |lit| <= |ref| {
      var rest := ref[|lit|..];
      MatchLettersToEndSpec(rest);
      var a := ref[..|lit|];
      assert a[..|bundleName|] == ref[..|bundleName|];
      if SameIgnoringCase(a, lit) {
        forall i | 0 <= i < |bundleName| ensures LowerChar(ref[..|bundleName|][i]) == LowerChar(bundleName[i]) {
          assert a[i] == ref[..|bundleName|][i] && lit[i] == bundleName[i];
        }
        assert LowerChar(a[|bundleName|]) == LowerChar(':');
        LowerCharSame(a[|bundleName|], ':');
      }
      if IsReferenceTo(bundleName, ref) {
        forall i | 0 <= i < |lit| ensures LowerChar(a[i]) == LowerChar(lit[i]) {
          if i < |bundleName| { assert a[i] == ref[..|bundleName|][i] && lit[i] == bundleName[i]; }
        }
      }
    }
  }

  /** Round trip: a reference built from the bundle name (in any case) and a name is decoded to
      that name, with its case preserved. */
  lemma MatchReferenceOfName(bundleName: string, prefix: string, name: string)
    requires SameIgnoringCase(prefix, bundleName) && IsName(name)
    ensures MatchReference(bundleName, prefix + ":" + name) == Some(name)
  {
    var ref := prefix + ":" + name;
    assert ref[..|bundleName|] == prefix;
    assert ref[|bundleName|] == ':';
    assert ref[|bundleName| + 1..] == name;
    MatchReferenceSpec(bundleName, ref);
  }

  /** A byte after the colon that is not a letter (a digit, '_', ...) makes the reference fail to match. */
  lemma NonLetterRejected(bundleName: string, ref: string, i: int)
    requires |bundleName| < i < |ref| && !IsLetter(ref[i])
    ensures MatchReference(bundleName, ref) == None
  {
    MatchReferenceSpec(bundleName, ref);
  }

  /** A prefix that differs from the bundle name other than by the case of its letters makes the reference fail to match. */
  lemma OtherBundleRejected(bundleName: string, ref: string, i: int)
    requires 0 <= i < |bundleName| && i < |ref| && LowerChar(ref[i]) != LowerChar(bundleName[i])
    ensures MatchReference(bundleName, ref) == None
  {
    MatchReferenceSpec(bundleName, ref);
  }

  /** The bundle part is compared without regard to case; the captured name keeps its case. */
  lemma MatchReferenceCaselessExample()
    ensures MatchReference("SkwiBundle", "skwibundle:BlogPost") == Some("BlogPost")
  {
    var p, n := "skwibundle", "BlogPost";
    assert SameIgnoringCase(p, "SkwiBundle") by {
      assert LowerChar('S') == 's' && LowerChar('B') == 'b';
    }
    assert IsName(n);
    MatchReferenceOfName("SkwiBundle", p, n);
    assert p + ":" + n == "skwibundle:BlogPost";
  }

  /** Digits, underscores and other bundles do not match. */
  lemma MatchReferenceRejectExamples()
    ensures MatchReference("SkwiBundle", "SkwiBundle:Post2") == None
    ensures MatchReference("SkwiBundle", "SkwiBundle:Blog_Post") == None
    ensures MatchReference("SkwiBundle", "OtherBundle:Post") == None
  {
    NonLetterRejected("SkwiBundle", "SkwiBundle:Post2", 15);
    NonLetterRejected("SkwiBundle", "SkwiBundle:Blog_Post", 15);
    OtherBundleRejected("SkwiBundle", "OtherBundle:Post", 0);
  }
}
