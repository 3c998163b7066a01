/**
 * Character and string helpers with Python's meaning, restricted to ASCII:
 * `str.isspace`, `str.lower`, `str.replace` of one character, `str.strip`,
 * `str.lstrip`, `str.split()` with no argument, `sep.join(parts)` and the
 * `%d` rendering of an integer.
 */
module Text {

  /** Python's `str.isspace` on ASCII: tab, newline, vertical tab, form feed,
      carriage return, the four separator controls 0x1c-0x1f, and space. */
  predicate IsSpace(c: char) {
    ('\t' <= c <= '\r') || ('\U{1C}' <= c <= ' ')
  }

  predicate IsDigit(c: char) {
    '0' <= c <= '9'
  }

  predicate IsHexDigit(c: char) {
    IsDigit(c) || ('a' <= c <= 'f') || ('A' <= c <= 'F')
  }

  predicate AllSpace(s: string) {
    forall i :: 0 <= i < |s| ==> IsSpace(s[i])
  }

  predicate NoSpace(s: string) {
    forall i :: 0 <= i < |s| ==> !IsSpace(s[i])
  }

  predicate AllDigits(s: string) {
    forall i :: 0 <= i < |s| ==> IsDigit(s[i])
  }

  predicate StartsWith(s: string, prefix: string) {
    |prefix| <= |s| && s[..|prefix|] == prefix
  }

  // ---------------------------------------------------------------------
  // Case and character replacement

  /** ASCII lower-casing of one character. */
  function LowerChar(c: char): (r: char)
    ensures !('A' <= r <= 'Z')
    ensures IsSpace(r) <==> IsSpace(c)
    ensures IsHexDigit(r) <==> IsHexDigit(c)
    ensures c != r ==> 'A' <= c <= 'Z' && r as int == c as int + 32
  {
    if 'A' <= c <= 'Z' then (c as int + 32) as char else c
  }

  /** `s.lower()`, ASCII only. */
  function Lower(s: string): (r: string)
    ensures |r| == |s|
    ensures forall i :: 0 <= i < |s| ==> r[i] == LowerChar(s[i])
  {
    seq(|s|, i requires 0 <= i < |s| => LowerChar(s[i]))
  }

  /** `s.replace(from, to)` for single characters. */
  function ReplaceChar(s: string, from: char, to: char): (r: string)
    ensures |r| == |s|
    ensures forall i :: 0 <= i < |s| ==> r[i] == if s[i] == from then to else s[i]
  {
    seq(|s|, i requires 0 <= i < |s| => if s[i] == from then to else s[i])
  }

  lemma LowerIdempotent(s: string)
    ensures Lower(Lower(s)) == Lower(s)
  {
  }

  // ---------------------------------------------------------------------
  // Runs of characters at the front of a string

  /** Number of leading whitespace characters. */
  function LeadingSpaces(s: string): (n: nat)
    ensures n <= |s|
    ensures forall i :: 0 <= i < n ==> IsSpace(s[i])
    ensures n < |s| ==> !IsSpace(s[n])
    decreases |s|
  {
    if |s| > 0 && IsSpace(s[0]) then 1 + LeadingSpaces(s[1..]) else 0
  }

  /** Number of trailing whitespace characters. */
  function TrailingSpaces(s: string): (n: nat)
    ensures n <= |s|
    ensures forall i :: |s| - n <= i < |s| ==> IsSpace(s[i])
    ensures n < |s| ==> !IsSpace(s[|s| - n - 1])
    decreases |s|
  {
    if |s| > 0 && IsSpace(s[|s| - 1]) then 1 + TrailingSpaces(s[..|s| - 1]) else 0
  }

  /** Number of leading non-whitespace characters. */
  function WordLength(s: string): (n: nat)
    ensures n <= |s|
    ensures forall i :: 0 <= i < n ==> !IsSpace(s[i])
    ensures n < |s| ==> IsSpace(s[n])
    decreases |s|
  {
    if |s| > 0 && !IsSpace(s[0]) then 1 + WordLength(s[1..]) else 0
  }

  /** Number of leading decimal digits. */
  function DigitRun(s: string): (n: nat)
    ensures n <= |s|
    ensures forall i :: 0 <= i < n ==> IsDigit(s[i])
    ensures n < |s| ==> !IsDigit(s[n])
    decreases |s|
  {
    if |s| > 0 && IsDigit(s[0]) then 1 + DigitRun(s[1..]) else 0
  }

  lemma {:induction false} WordLengthOfWord(w: string, rest: string)
    requires NoSpace(w)
    requires rest == [] || IsSpace(rest[0])
    ensures WordLength(w + rest) == |w|
    decreases |w|
  {
    if |w| > 0 {
      assert (w + rest)[1..] == w[1..] + rest;
      WordLengthOfWord(w[1..], rest);
    } else {
      assert w + rest == rest;
    }
  }

  lemma {:induction false} DigitRunOfDigits(ds: string, rest: string)
    requires AllDigits(ds)
    requires rest == [] || !IsDigit(rest[0])
    ensures DigitRun(ds + rest) == |ds|
    decreases |ds|
  {
    if |ds| > 0 {
      assert (ds + rest)[1..] == ds[1..] + rest;
      DigitRunOfDigits(ds[1..], rest);
    } else {
      assert ds + rest == rest;
    }
  }

  // ---------------------------------------------------------------------
  // strip / lstrip

  /** `s.lstrip()`. */
  function LStrip(s: string): (r: string)
    ensures r == [] || !IsSpace(r[0])
  {
    s[LeadingSpaces(s)..]
  }

  /** `s.strip()`. */
  function Strip(s: string): (r: string)
    ensures r == [] || (!IsSpace(r[0]) && !IsSpace(r[|r| - 1]))
  {
    var t := LStrip(s);
    t[..|t| - TrailingSpaces(t)]
  }

  /** `strip()` removes whitespace from both ends and nothing else: the
      result is the slice of `s` after its leading whitespace, followed in
      `s` only by whitespace; it is empty exactly for an all-whitespace
      string, and otherwise begins where `lstrip()` does. */
  lemma StripShape(s: string)
    ensures var i := LeadingSpaces(s); var r := Strip(s);
      i + |r| <= |s| && r == s[i..i + |r|] &&
      (forall j :: i + |r| <= j < |s| ==> IsSpace(s[j]))
    ensures Strip(s) == [] <==> AllSpace(s)
    ensures Strip(s) != [] ==> Strip(s)[0] == LStrip(s)[0]
  {
    var i := LeadingSpaces(s);
    var t := LStrip(s);
    var r := Strip(s);
    var n := TrailingSpaces(t);
    assert r == t[..|t| - n];
    assert t == s[i..];
    assert r == s[i..i + |r|];
    forall j | i + |r| <= j < |s|
      ensures IsSpace(s[j])
    {
      assert s[j] == t[j - i];
    }
    if t != [] {
      assert n < |t|;
      assert r[0] == t[0];
    } else {
      assert forall j :: 0 <= j < |s| ==> IsSpace(s[j]);
    }
  }

  // ---------------------------------------------------------------------
  // split() and join

  /** `s.split()` with no separator: the maximal runs of non-whitespace, in
      order; empty tokens never occur. */
  function Split(s: string): (r: seq<string>)
    ensures forall k :: 0 <= k < |r| ==> r[k] != [] && NoSpace(r[k])
    decreases |s|
  {
    var i := LeadingSpaces(s);
    var t := s[i..];
    if t == [] then []
    else
      var n := WordLength(t);
      assert n > 0 by {
        assert t[0] == s[i];
      }
      var rest := Split(t[n..]);
      var r := [t[..n]] + rest;
      assert forall k :: 0 < k < |r| ==> r[k] == rest[k - 1];
      r
  }

  lemma SplitSkipsSpace(s: string)
    requires s != [] && IsSpace(s[0])
    ensures Split(s) == Split(s[1..])
  {
    assert s[LeadingSpaces(s)..] == s[1..][LeadingSpaces(s[1..])..];
  }

  lemma {:induction false} SplitOfSpaces(s: string)
    requires AllSpace(s)
    ensures Split(s) == []
    decreases |s|
  {
    if s != [] {
      SplitSkipsSpace(s);
      SplitOfSpaces(s[1..]);
    }
  }

  /** `sep.join(parts)`. */
  function Join(parts: seq<string>, sep: string): (r: string)
    ensures parts == [] ==> r == []
    ensures |parts| == 1 ==> r == parts[0]
    decreases |parts|
  {
    if |parts| == 0 then []
    else if |parts| == 1 then parts[0]
    else parts[0] + sep + Join(parts[1..], sep)
  }

  /** Text appended to a joined list lands in its last element. */
  lemma {:induction false} JoinAppendLast(parts: seq<string>, sep: string, suffix: string)
    requires |parts| >= 1
    ensures Join(parts, sep) + suffix == Join(parts[..|parts| - 1] + [parts[|parts| - 1] + suffix], sep)
    decreases |parts|
  {
    var n := |parts|;
    var q := parts[..n - 1] + [parts[n - 1] + suffix];
    if n > 1 {
      JoinAppendLast(parts[1..], sep, suffix);
      assert q[1..] == parts[1..][..n - 2] + [parts[1..][n - 2] + suffix];
      assert q[0] == parts[0];
    }
  }

  /** A word followed by whitespace (or nothing) splits off as one token. */
  lemma SplitWordThen(w: string, rest: string)
    requires w != [] && NoSpace(w)
    requires rest == [] || IsSpace(rest[0])
    ensures Split(w + rest) == [w] + Split(rest)
  {
    var s := w + rest;
    assert s[0] == w[0];
    assert s[LeadingSpaces(s)..] == s;
    WordLengthOfWord(w, rest);
    assert s[..|w|] == w;
    assert s[|w|..] == rest;
  }

  /** Joining whitespace-free, non-empty words with a single space and
      splitting the result again gives the words back: `split()` inverts
      `" ".join`. */
  lemma {:induction false} SplitJoin(words: seq<string>)
    requires forall w :: w in words ==> w != [] && NoSpace(w)
    ensures Split(Join(words, " ")) == words
    decreases |words|
  {
    if |words| == 1 {
      assert words[0] in words;
      assert Split(words[0] + []) == [words[0]] + Split([]) by {
        SplitWordThen(words[0], []);
      }
      assert words[0] + [] == words[0];
    } else if |words| > 1 {
      var tail := words[1..];
      assert Split(Join(tail, " ")) == tail by {
        assert forall v :: v in tail ==> v in words;
        SplitJoin(tail);
      }
      assert words[0] in words;
      SplitJoinCons(words[0], tail);
      assert words == [words[0]] + tail;
    }
  }

  lemma ConcatAssoc(a: string, b: string, c: string)
    ensures a + b + c == a + (b + c)
  {
  }

  /** One step of `SplitJoin`: a word in front of a joined non-empty tail. */
  lemma SplitJoinCons(w: string, tail: seq<string>)
    requires w != [] && NoSpace(w) && tail != []
    requires Split(Join(tail, " ")) == tail
    ensures Split(Join([w] + tail, " ")) == [w] + tail
  {
    var j := Join(tail, " ");
    assert Join([w] + tail, " ") == w + (" " + j) by {
      assert ([w] + tail)[1..] == tail;
      assert Join([w] + tail, " ") == w + " " + j;
      ConcatAssoc(w, " ", j);
    }
    assert Split(w + (" " + j)) == [w] + Split(" " + j) by {
      SplitWordThen(w, " " + j);
    }
    assert Split(" " + j) == Split(j) by {
      SplitSkipsSpace(" " + j);
      assert (" " + j)[1..] == j;
    }
  }

  /** The comma-separated fields of a `", ".join`: cuts at each comma and
      drops the space that follows it. */
  function Fields(s: string): (r: seq<string>)
    ensures |r| >= 1
    decreases |s|
  {
    var k := CommaFreeLength(s);
    if k == |s| then [s]
    else if k + 2 <= |s| then [s[..k]] + Fields(s[k + 2..])
    else [s[..k], []]
  }

  /** Number of leading characters before the first comma. */
  function CommaFreeLength(s: string): (n: nat)
    ensures n <= |s|
    ensures forall i :: 0 <= i < n ==> s[i] != ','
    ensures n < |s| ==> s[n] == ','
    decreases |s|
  {
    if |s| > 0 && s[0] != ',' then 1 + CommaFreeLength(s[1..]) else 0
  }

  lemma {:induction false} CommaFreeLengthOf(p: string, rest: string)
    requires ',' !in p
    requires rest == [] || rest[0] == ','
    ensures CommaFreeLength(p + rest) == |p|
    decreases |p|
  {
    if |p| > 0 {
      assert p[0] in p;
      assert (p + rest)[1..] == p[1..] + rest;
      assert forall c :: c in p[1..] ==> c in p;
      CommaFreeLengthOf(p[1..], rest);
    } else {
      assert p + rest == rest;
    }
  }

  /** `", ".join` is inverted by `Fields` when no part holds a comma. */
  lemma {:induction false} FieldsJoin(parts: seq<string>)
    requires |parts| >= 1
    requires forall p :: p in parts ==> ',' !in p
    ensures Fields(Join(parts, ", ")) == parts
    decreases |parts|
  {
    var p := parts[0];
    assert p in parts;
    if |parts| == 1 {
      CommaFreeLengthOf(p, []);
      assert p + [] == p;
    } else {
      var rest := parts[1..];
      var tail := Join(rest, ", ");
      var s := Join(parts, ", ");
      var k := |p|;
      assert Fields(s) == [p] + Fields(tail) by {
        assert CommaFreeLength(s) == k && s[..k] == p && s[k + 2..] == tail by {
          assert s == p + ", " + tail;
          ConcatAssoc(p, ", ", tail);
          CommaFreeLengthOf(p, ", " + tail);
        }
      }
      assert Fields(tail) == rest by {
        assert forall q :: q in rest ==> q in parts;
        FieldsJoin(rest);
      }
      assert parts == [p] + rest;
    }
  }

  /** Text without a comma appended to a comma-separated list stays in the
      last field. */
  lemma FieldsJoinSuffix(parts: seq<string>, suffix: string)
    requires |parts| >= 1
    requires forall p :: p in parts ==> ',' !in p
    requires ',' !in suffix
    ensures var n := |parts|;
      Fields(Join(parts, ", ") + suffix) == parts[..n - 1] + [parts[n - 1] + suffix]
  {
    var n := |parts|;
    var fields := parts[..n - 1] + [parts[n - 1] + suffix];
    JoinAppendLast(parts, ", ", suffix);
    assert forall i :: 0 <= i < n - 1 ==> fields[i] == parts[i] && parts[i] in parts;
    assert parts[n - 1] in parts;
    FieldsJoin(fields);
  }

  // ---------------------------------------------------------------------
  // Decimal numerals

  function DigitChar(d: nat): (c: char)
    requires d < 10
    ensures IsDigit(c)
  {
    ('0' as int + d) as char
  }

  function DigitValue(c: char): (d: nat)
    requires IsDigit(c)
    ensures d < 10
  {
    c as int - '0' as int
  }

  /** `"%d" % n` for a non-negative `n`: shortest decimal numeral. */
  function NatToDecimal(n: nat): (r: string)
    ensures |r| >= 1 && AllDigits(r)
    ensures |r| > 1 ==> r[0] != '0'
    decreases n
  {
    if n < 10 then [DigitChar(n)] else NatToDecimal(n / 10) + [DigitChar(n % 10)]
  }

  /** `"%d" % i` for any integer. */
  function IntToDecimal(i: int): (r: string)
    ensures |r| >= 1
    ensures i < 0 <==> r[0] == '-'
  {
    if i < 0 then "-" + NatToDecimal(-i) else NatToDecimal(i)
  }

  /** The value of a string of decimal digits. */
  function DecimalValue(ds: string): nat
    requires AllDigits(ds)
    decreases |ds|
  {
    if |ds| == 0 then 0
    else DecimalValue(ds[..|ds| - 1]) * 10 + DigitValue(ds[|ds| - 1])
  }

  /** A numeral as `%d` writes a natural number: at least one digit, and no
      leading zero unless the numeral is `0` itself. */
  predicate IsNumeral(ds: string) {
    |ds| >= 1 && AllDigits(ds) && (|ds| > 1 ==> ds[0] != '0')
  }

  /** A numeral that does not start with `0` denotes a positive number. */
  lemma {:induction false} LeadingDigitPositive(ds: string)
    requires |ds| >= 1 && AllDigits(ds) && ds[0] != '0'
    ensures DecimalValue(ds) > 0
    decreases |ds|
  {
    var n := |ds|;
    if n > 1 {
      var p := ds[..n - 1];
      assert p[0] == ds[0];
      LeadingDigitPositive(p);
    } else {
      assert ds[..0] == [];
    }
  }

  /** Every numeral is the one `%d` prints for its value, so each number
      has exactly one numeral. */
  lemma {:induction false} NumeralRoundTrip(ds: string)
    requires IsNumeral(ds)
    ensures NatToDecimal(DecimalValue(ds)) == ds
    decreases |ds|
  {
    var n := |ds|;
    var d := DigitValue(ds[n - 1]);
    assert DigitChar(d) == ds[n - 1];
    if n == 1 {
      assert ds[..0] == [];
      assert ds == [ds[0]];
    } else {
      var p := ds[..n - 1];
      assert p[0] == ds[0];
      NumeralRoundTrip(p);
      LeadingDigitPositive(p);
      var w := DecimalValue(p);
      var v := DecimalValue(ds);
      assert v == w * 10 + d;
      assert v / 10 == w && v % 10 == d;
      assert ds == p + [ds[n - 1]];
    }
  }

  lemma {:induction false} DecimalRoundTrip(n: nat)
    ensures DecimalValue(NatToDecimal(n)) == n
    decreases n
  {
    if n >= 10 {
      var s := NatToDecimal(n);
      assert s[..|s| - 1] == NatToDecimal(n / 10);
      DecimalRoundTrip(n / 10);
    }
  }
}
