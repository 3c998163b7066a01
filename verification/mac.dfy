/**
 * MAC address validation and canonicalisation (`ValidateMac` in api.py, and
 * its identical twin in hawk.py).
 *
 * The source compiles the pattern `[0-9a-fA-F]{2}` repeated six times and
 * joined by `[:\-]`, and tests it with `re.match`, which anchors only at the
 * start: the first 17 characters must form the address and anything after
 * them is accepted and carried along. An accepted string is returned whole
 * with `-` turned into `:` and lower-cased; a rejected one yields `False`,
 * modelled as `None`.
 */
module MacAddress {
  import opened Wrappers
  import opened Text

  /** Length of the text the pattern consumes: six pairs, five separators. */
  const MacLength: nat := 17

  predicate IsSeparator(c: char) {
    c == ':' || c == '-'
  }

  /** What the pattern demands of position `i` of the first 17 characters:
      a separator at every third position, a hex digit elsewhere. */
  predicate PatternAt(s: string, i: nat)
    requires i < |s|
  {
    if i % 3 == 2 then IsSeparator(s[i]) else IsHexDigit(s[i])
  }

  /** The canonical form: six lower-case hex pairs joined by colons. */
  predicate IsCanonical(m: string) {
    |m| == MacLength &&
    forall i :: 0 <= i < MacLength ==>
      if i % 3 == 2 then m[i] == ':' else IsHexDigit(m[i]) && !('A' <= m[i] <= 'F')
  }

  // The matcher walks the pattern group by group, as the regular expression
  // engine does: a hex pair, then five times a separator and a hex pair.

  predicate PairAt(s: string, i: nat) {
    i + 2 <= |s| && IsHexDigit(s[i]) && IsHexDigit(s[i + 1])
  }

  predicate GroupsAt(s: string, i: nat, k: nat)
    decreases k
  {
    k == 0 || (i < |s| && IsSeparator(s[i]) && PairAt(s, i + 1) && GroupsAt(s, i + 3, k - 1))
  }

  predicate MatchesPrefix(s: string) {
    PairAt(s, 0) && GroupsAt(s, 2, 5)
  }

  lemma {:induction false} GroupsAtIndexed(s: string, i: nat, k: nat)
    requires i % 3 == 2
    ensures GroupsAt(s, i, k) <==>
      ((k > 0 ==> i + 3 * k <= |s|) && forall j :: i <= j < i + 3 * k ==> PatternAt(s, j))
    decreases k
  {
    if k > 0 {
      assert (i + 3) % 3 == 2 && (i + 1) % 3 == 0 && (i + 2) % 3 == 1;
      GroupsAtIndexed(s, i + 3, k - 1);
      if GroupsAt(s, i, k) {
        forall j | i <= j < i + 3 * k
          ensures PatternAt(s, j)
        {
          if j >= i + 3 {
            assert i + 3 <= j < (i + 3) + 3 * (k - 1);
          }
        }
        assert i + 3 * k <= |s|;
      }
      if i + 3 * k <= |s| && forall j :: i <= j < i + 3 * k ==> PatternAt(s, j) {
        assert PatternAt(s, i) && PatternAt(s, i + 1) && PatternAt(s, i + 2);
        assert forall j :: i + 3 <= j < i + 3 + 3 * (k - 1) ==> PatternAt(s, j);
        assert GroupsAt(s, i + 3, k - 1);
        assert GroupsAt(s, i, k);
      }
    }
  }

  /** The pattern matches at the start of `s` exactly when `s` has at least
      17 characters and each of the first 17 is what the pattern demands. */
  lemma MatchesPrefixIndexed(s: string)
    ensures MatchesPrefix(s) <==>
      (|s| >= MacLength && forall i :: 0 <= i < MacLength ==> PatternAt(s, i))
  {
    GroupsAtIndexed(s, 2, 5);
    if |s| >= MacLength && forall i :: 0 <= i < MacLength ==> PatternAt(s, i) {
      assert PatternAt(s, 0) && PatternAt(s, 1);
    }
  }

  /** `mac_string.replace("-", ":").lower()`. */
  function Canonicalise(s: string): string {
    Lower(ReplaceChar(s, '-', ':'))
  }

  /** `ValidateMac(mac_string)`: the canonicalised whole input when its first
      17 characters are a MAC address, `None` otherwise. */
  function ValidateMac(s: string): (r: Option<string>)
    ensures r.Some? <==>
      |s| >= MacLength && forall i :: 0 <= i < MacLength ==> PatternAt(s, i)
    ensures r.Some? ==> |r.value| == |s|
    ensures r.Some? ==> IsCanonical(r.value[..MacLength])
    ensures r.Some? ==> forall i :: 0 <= i < |s| && s[i] != '-' ==> r.value[i] == LowerChar(s[i])
    ensures r.Some? ==> forall i :: 0 <= i < |s| && s[i] == '-' ==> r.value[i] == ':'
  {
    MatchesPrefixIndexed(s);
    if MatchesPrefix(s) then
      CanonicalisePrefix(s);
      Some(Canonicalise(s))
    else
      None
  }

  lemma CanonicalisePrefix(s: string)
    requires |s| >= MacLength && forall i :: 0 <= i < MacLength ==> PatternAt(s, i)
    ensures IsCanonical(Canonicalise(s)[..MacLength])
  {
    var c := Canonicalise(s);
    forall i | 0 <= i < MacLength
      ensures c[..MacLength][i] == c[i]
      ensures if i % 3 == 2 then c[i] == ':' else IsHexDigit(c[i]) && !('A' <= c[i] <= 'F')
    {
      assert PatternAt(s, i);
    }
  }

  /** A canonical address (with or without trailing text) validates to itself. */
  lemma CanonicalIsFixedPoint(s: string)
    requires |s| >= MacLength && IsCanonical(s[..MacLength])
    requires forall i :: MacLength <= i < |s| ==> s[i] != '-' && !('A' <= s[i] <= 'Z')
    ensures ValidateMac(s) == Some(s)
  {
    assert forall i :: 0 <= i < MacLength ==> s[..MacLength][i] == s[i];
    assert forall i :: 0 <= i < MacLength ==> PatternAt(s, i);
    assert Canonicalise(s) == s;
  }

  /** Validation is idempotent: validating an accepted output returns it
      unchanged. */
  lemma ValidateIdempotent(s: string)
    requires ValidateMac(s).Some?
    ensures ValidateMac(ValidateMac(s).value) == ValidateMac(s)
  {
    var c := ValidateMac(s).value;
    assert forall i :: 0 <= i < MacLength ==> c[..MacLength][i] == c[i];
    assert forall i :: 0 <= i < MacLength ==> PatternAt(c, i);
    assert Canonicalise(c) == c;
  }

  /** Whether `ValidateMac` accepts depends only on the pattern positions. */
  lemma SamePattern(s: string, t: string)
    requires |s| == |t|
    requires forall i :: 0 <= i < |s| && i < MacLength ==> (PatternAt(s, i) <==> PatternAt(t, i))
    requires Canonicalise(s) == Canonicalise(t)
    ensures ValidateMac(s) == ValidateMac(t)
  {
    assert MatchesPrefix(s) <==> MatchesPrefix(t) by {
      MatchesPrefixIndexed(s);
      MatchesPrefixIndexed(t);
    }
  }

  /** Upper- and lower-case input are treated alike. */
  lemma ValidateIgnoresCase(s: string)
    ensures ValidateMac(Lower(s)) == ValidateMac(s)
  {
    var l := Lower(s);
    forall i | 0 <= i < |s| && i < MacLength ensures PatternAt(l, i) <==> PatternAt(s, i) {
      assert l[i] == LowerChar(s[i]);
    }
    assert Canonicalise(l) == Canonicalise(s) by {
      var a, b := Canonicalise(l), Canonicalise(s);
      forall i | 0 <= i < |s| ensures a[i] == b[i] {
        assert l[i] == LowerChar(s[i]);
      }
    }
    SamePattern(l, s);
  }

  /** Hyphen- and colon-delimited input are treated alike. */
  lemma ValidateIgnoresDelimiter(s: string)
    ensures ValidateMac(ReplaceChar(s, '-', ':')) == ValidateMac(s)
  {
    var h := ReplaceChar(s, '-', ':');
    forall i | 0 <= i < |s| && i < MacLength ensures PatternAt(h, i) <==> PatternAt(s, i) {
      assert h[i] == if s[i] == '-' then ':' else s[i];
    }
    assert Canonicalise(h) == Canonicalise(s) by {
      var a, b := Canonicalise(h), Canonicalise(s);
      forall i | 0 <= i < |s| ensures a[i] == b[i] {
        assert h[i] == if s[i] == '-' then ':' else s[i];
      }
    }
    SamePattern(h, s);
  }

  /** A mixed-case, mixed-delimiter address is accepted and normalised. */
  lemma ValidateNormalisesExample()
    ensures ValidateMac("AA-bb:CC-dd:EE-ff") == Some("aa:bb:cc:dd:ee:ff")
  {
    var a := "AA-bb:CC-dd:EE-ff";
    assert forall i :: 0 <= i < MacLength ==> PatternAt(a, i);
    assert Canonicalise(a) == "aa:bb:cc:dd:ee:ff";
  }

  /** Trailing text after a valid prefix is kept, and lowercased too. */
  lemma ValidateKeepsTrailingExample()
    ensures ValidateMac("aa:bb:cc:dd:ee:ffXYZ") == Some("aa:bb:cc:dd:ee:ffxyz")
  {
    var b := "aa:bb:cc:dd:ee:ffXYZ";
    assert forall i :: 0 <= i < MacLength ==> PatternAt(b, i);
    assert Canonicalise(b) == "aa:bb:cc:dd:ee:ffxyz";
  }

  /** A short input and a non-hex digit are rejected. */
  lemma ValidateRejectsExamples()
    ensures ValidateMac("aa:bb:cc:dd:ee:f") == None
    ensures ValidateMac("aa:bb:cc:dd:ee:fg") == None
  {
    var d := "aa:bb:cc:dd:ee:fg";
    assert !PatternAt(d, 16);
  }
}
