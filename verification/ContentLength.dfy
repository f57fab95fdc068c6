/** `parse_content_length` of the HTTP test client: `strcasestr`, `strchr` and `strtoll` on a C string. */
module ContentLength {
  import opened Options
  import opened Bytes

  const NAME: string := "content-length:"
  const LLONG_MAX: int := 0x7FFF_FFFF_FFFF_FFFF

  function Lower(c: char): char {
    if 'A' <= c <= 'Z' then ((c as int) + 32) as char else c
  }

  predicate IsName(t: string) {
    |t| == |NAME| && forall k :: 0 <= k < |t| ==> Lower(t[k]) == NAME[k]
  }

  predicate NameAt(s: string, i: int) {
    0 <= i <= |s| - |NAME| && IsName(s[i..i + |NAME|])
  }

  /** The first occurrence of the name from position i on, in any case. */
  function FindName(s: string, i: nat): (r: Option<nat>)
    requires i <= |s|
    ensures r.Some? ==> i <= r.value && NameAt(s, r.value)
    decreases |s| - i
  {
    if |s| - i < |NAME| then None else if NameAt(s, i) then Some(i) else FindName(s, i + 1)
  }

  predicate IsSpace(c: char) {
    c == ' ' || '\t' <= c <= '\r'
  }

  predicate IsDigit(c: char) {
    '0' <= c <= '9'
  }

  function SkipSpace(s: string, i: nat): (r: nat)
    requires i <= |s|
    ensures i <= r <= |s|
    decreases |s| - i
  {
    if i < |s| && IsSpace(s[i]) then SkipSpace(s, i + 1) else i
  }

  function SkipBlanks(s: string, i: nat): (r: nat)
    requires i <= |s|
    ensures i <= r <= |s|
    decreases |s| - i
  {
    if i < |s| && (s[i] == ' ' || s[i] == '\t') then SkipBlanks(s, i + 1) else i
  }

  function SkipDigits(s: string, i: nat): (r: nat)
    requires i <= |s|
    ensures i <= r <= |s|
    ensures forall k :: i <= k < r ==> IsDigit(s[k])
    decreases |s| - i
  {
    if i < |s| && IsDigit(s[i]) then SkipDigits(s, i + 1) else i
  }

  function Decimal(digits: string): nat
    requires forall k :: 0 <= k < |digits| ==> IsDigit(digits[k])
  {
    if digits == "" then 0 else
    var n := |digits| - 1;
    10 * Decimal(digits[..n]) + Digit(digits[n])
  }

  function Digit(c: char): nat
    requires IsDigit(c)
  {
    (c as int) - ('0' as int)
  }

  /** Where the digits that `strtoll` reads at position p start: behind white space and a sign. */
  function DigitsAt(s: string, p: nat): (d: nat)
    requires p <= |s|
    ensures p <= d <= |s|
  {
    var q := SkipSpace(s, p);
    if q < |s| && (s[q] == '+' || s[q] == '-') then q + 1 else q
  }

  function Number(s: string, d: nat): nat
    requires d <= |s|
  {
    Min(Decimal(s[d..SkipDigits(s, d)]), LLONG_MAX)
  }

  /** The value that the header gives, or -1 without a name, without digits or below zero. */
  function ParseContentLength(s: string): (n: int)
    ensures n >= -1
  {
    match FindName(s, 0)
    case None => -1
    case Some(i) => ParseValue(s, i + |NAME|)
  }

  function ParseValue(s: string, p: nat): (n: int)
    requires 0 < p <= |s|
    ensures n >= -1
  {
    var d := DigitsAt(s, SkipBlanks(s, p));
    var v := Number(s, d);
    if d == |s| || !IsDigit(s[d]) then -1
    else if s[d - 1] == '-' && v > 0 then -1
    else v
  }

  // ---------------------------------------------------------------- more text behind the header

  lemma NameStable(s: string, x: string, i: nat)
    requires i + |NAME| <= |s|
    ensures NameAt(s + x, i) <==> NameAt(s, i)
  {
    var t := s + x;
    assert t[i..i + |NAME|] == s[i..i + |NAME|];
  }

  lemma {:induction false} FindNameStable(s: string, x: string, i: nat)
    requires i <= |s| && FindName(s, i).Some?
    ensures FindName(s + x, i) == FindName(s, i)
    decreases |s| - i
  {
    NameStable(s, x, i);
    if !NameAt(s, i) {
      FindNameStable(s, x, i + 1);
    }
  }

  lemma {:induction false} SkipSpaceStable(s: string, x: string, i: nat)
    requires i <= |s| && SkipSpace(s, i) < |s|
    ensures SkipSpace(s + x, i) == SkipSpace(s, i)
    decreases |s| - i
  {
    if IsSpace(s[i]) {
      SkipSpaceStable(s, x, i + 1);
    }
  }

  lemma {:induction false} SkipBlanksStable(s: string, x: string, i: nat)
    requires i <= |s| && SkipBlanks(s, i) < |s|
    ensures SkipBlanks(s + x, i) == SkipBlanks(s, i)
    decreases |s| - i
  {
    if s[i] == ' ' || s[i] == '\t' {
      SkipBlanksStable(s, x, i + 1);
    }
  }

  lemma {:induction false} SkipDigitsStable(s: string, x: string, i: nat)
    requires i <= |s| && SkipDigits(s, i) < |s|
    ensures SkipDigits(s + x, i) == SkipDigits(s, i)
    decreases |s| - i
  {
    if IsDigit(s[i]) {
      SkipDigitsStable(s, x, i + 1);
    }
  }

  /** Digits never run to the end of a text that ends with something else. */
  lemma DigitsStop(s: string, i: nat)
    requires i < |s| && !IsDigit(s[|s| - 1])
    ensures SkipDigits(s, i) < |s|
  {
  }

  /** The header settles its length: it has the name, and something behind it that is no white space. */
  predicate Settled(s: string) {
    match FindName(s, 0)
    case None => false
    case Some(i) => SkipSpace(s, SkipBlanks(s, i + |NAME|)) < |s|
  }

  predicate EndsInSpace(s: string) {
    s != "" && IsSpace(s[|s| - 1])
  }

  lemma {:induction false} SkipSpaceStops(s: string, i: nat)
    requires i <= |s|
    ensures SkipSpace(s, i) < |s| ==> !IsSpace(s[SkipSpace(s, i)])
    decreases |s| - i
  {
    if i < |s| && IsSpace(s[i]) {
      SkipSpaceStops(s, i + 1);
    }
  }

  lemma ValueStable(s: string, x: string, p: nat)
    requires 0 < p <= |s| && EndsInSpace(s) && SkipSpace(s, SkipBlanks(s, p)) < |s|
    ensures ParseValue(s + x, p) == ParseValue(s, p)
  {
    var t := s + x;
    var b := SkipBlanks(s, p);
    SkipBlanksStable(s, x, p);
    SkipSpaceStable(s, x, b);
    SkipSpaceStops(s, b);
    var d := DigitsAt(s, b);
    assert d < |s| && DigitsAt(t, b) == d && t[d] == s[d] && t[d - 1] == s[d - 1];
    if IsDigit(s[d]) {
      DigitsStop(s, d);
      SkipDigitsStable(s, x, d);
      assert t[d..SkipDigits(s, d)] == s[d..SkipDigits(s, d)];
    }
  }

  /** A length that the header itself settles is not changed by the text behind the header, that is, by
      how much of the body has arrived. */
  lemma ParseStable(s: string, x: string)
    requires EndsInSpace(s) && Settled(s)
    ensures ParseContentLength(s + x) == ParseContentLength(s)
  {
    hide FindName, ParseValue;
    FindNameStable(s, x, 0);
    ValueStable(s, x, FindName(s, 0).value + |NAME|);
  }

  // ---------------------------------------------------------------- a length out of the body

  ghost predicate IsNumber(v: string) {
    v != "" && forall k :: 0 <= k < |v| ==> IsDigit(v[k])
  }

  function NumberOf(v: string): nat
    requires forall k :: 0 <= k < |v| ==> IsDigit(v[k])
  {
    Min(Decimal(v), LLONG_MAX)
  }

  lemma {:induction false} SkipBlanksTo(s: string, v: string, i: nat)
    requires i <= |s| && IsNumber(v)
    ensures SkipBlanks(s + v, i) == SkipBlanks(s, i)
    decreases |s| - i
  {
    assert (s + v)[|s|] == v[0];
    if i < |s| && (s[i] == ' ' || s[i] == '\t') {
      SkipBlanksTo(s, v, i + 1);
    }
  }

  lemma {:induction false} SkipSpaceTo(s: string, v: string, i: nat)
    requires i <= |s| && IsNumber(v)
    ensures SkipSpace(s + v, i) == SkipSpace(s, i)
    decreases |s| - i
  {
    assert (s + v)[|s|] == v[0];
    if i < |s| && IsSpace(s[i]) {
      SkipSpaceTo(s, v, i + 1);
    }
  }

  lemma {:induction false} SkipDigitsToEnd(t: string, i: nat)
    requires i <= |t| && forall k :: i <= k < |t| ==> IsDigit(t[k])
    ensures SkipDigits(t, i) == |t|
    decreases |t| - i
  {
    if i < |t| {
      SkipDigitsToEnd(t, i + 1);
    }
  }

  /** A value that is all white space is continued by the digits behind it. */
  lemma ValueReadsOn(s: string, v: string, p: nat)
    requires 0 < p <= |s| && IsNumber(v) && SkipSpace(s, SkipBlanks(s, p)) == |s| && s[|s| - 1] != '-'
    ensures ParseValue(s, p) == -1 && ParseValue(s + v, p) == NumberOf(v)
  {
    var t := s + v;
    SkipBlanksTo(s, v, p);
    SkipSpaceTo(s, v, SkipBlanks(s, p));
    assert t[|s|] == v[0] && t[|s|..] == v && t[|s| - 1] == s[|s| - 1];
    SkipDigitsToEnd(t, |s|);
    assert t[|s|..SkipDigits(t, |s|)] == v;
  }

  /** A header whose value is missing takes the digits at the start of the body: `strtoll` skips the
      line ends. */
  lemma EmptyValueReadsBody(s: string, v: string)
    requires EndsInSpace(s) && FindName(s, 0).Some? && !Settled(s) && IsNumber(v)
    ensures ParseContentLength(s) == -1 && ParseContentLength(s + v) == NumberOf(v)
  {
    hide FindName, ParseValue;
    FindNameStable(s, v, 0);
    ValueReadsOn(s, v, FindName(s, 0).value + |NAME|);
  }

  lemma {:induction false} FindNameAt(s: string, i: nat, j: nat)
    requires i <= j <= |s| && NameAt(s, j) && forall k :: i <= k < j ==> !NameAt(s, k)
    ensures FindName(s, i) == Some(j)
    decreases j - i
  {
    if i < j {
      FindNameAt(s, i + 1, j);
    }
  }

  lemma {:induction false} NoNameFrom(s: string, i: nat, j: nat)
    requires i <= j <= |s| && FindName(s, i).None?
    ensures !NameAt(s, j)
    decreases j - i
  {
    if i < j && |s| - i >= |NAME| {
      NoNameFrom(s, i + 1, j);
    }
  }

  /** White space is no part of the name. */
  lemma NameHasNoSpace(t: string, k: nat)
    requires k < |t| && IsSpace(t[k])
    ensures !IsName(t)
  {
    assert |t| == |NAME| ==> Lower(t[k]) == t[k] != NAME[k];
  }

  lemma NameIsName()
    ensures IsName(NAME) && NAME[|NAME| - 1] == ':'
  {
  }

  /** No text behind white space completes a name that begins before it. */
  lemma NoNameBefore(s: string, y: string, j: nat)
    requires EndsInSpace(s) && FindName(s, 0).None? && j < |s|
    ensures !NameAt(s + y, j)
  {
    var t := s + y;
    if j + |NAME| <= |s| {
      NameStable(s, y, j);
      NoNameFrom(s, 0, j);
    } else if j + |NAME| <= |t| {
      var w := t[j..j + |NAME|];
      assert w[|s| - 1 - j] == s[|s| - 1];
      NameHasNoSpace(w, |s| - 1 - j);
    }
  }

  lemma FirstNameIsBehind(s: string, x: string)
    requires EndsInSpace(s) && FindName(s, 0).None?
    ensures FindName(s + (NAME + x), 0) == Some(|s|)
  {
    var t := s + (NAME + x);
    NameIsName();
    assert t[|s|..|s| + |NAME|] == NAME;
    forall j | 0 <= j < |s|
      ensures !NameAt(t, j)
    {
      NoNameBefore(s, NAME + x, j);
    }
    FindNameAt(t, 0, |s|);
  }

  /** What is no longer than the name spells out no length. */
  lemma ShortBodyHasNoLength(s: string, y: string)
    requires EndsInSpace(s) && FindName(s, 0).None? && |y| <= |NAME|
    ensures ParseContentLength(s + y) == -1
  {
    var t := s + y;
    var r := FindName(t, 0);
    if r.Some? && r.value < |s| {
      NoNameBefore(s, y, r.value);
    }
  }

  /** A header without the name takes the length that the body happens to spell out. */
  lemma MissingNameReadsBody(s: string, v: string)
    requires EndsInSpace(s) && FindName(s, 0).None? && IsNumber(v)
    ensures ParseContentLength(s) == -1 && ParseContentLength(s + (NAME + v)) == NumberOf(v)
  {
    hide FindName, ParseValue;
    FirstNameIsBehind(s, v);
    NameIsName();
    var h := s + NAME;
    assert h + v == s + (NAME + v);
    assert h[|h| - 1] == ':';
    ValueReadsOn(h, v, |h|);
  }

  /** How much of a body it takes to give an unsettled header a length. */
  function Needed(s: string): nat {
    if FindName(s, 0).Some? then 1 else |NAME| + 1
  }

  /** With less than that it has none. */
  lemma TooLittleBody(s: string, y: string)
    requires EndsInSpace(s) && !Settled(s) && |y| < Needed(s)
    ensures ParseContentLength(s + y) == -1
  {
    if FindName(s, 0).Some? {
      assert s + y == s;
    } else {
      ShortBodyHasNoLength(s, y);
    }
  }

  /** A header that does not settle its length has none by itself, and gets one from some body. */
  lemma UnsettledReadsBody(s: string) returns (x: string)
    requires EndsInSpace(s) && !Settled(s)
    ensures ParseContentLength(s) == -1 && ParseContentLength(s + x) == 7 && |x| == Needed(s) && '\0' !in x
  {
    var v := "7";
    assert IsNumber(v) && NumberOf(v) == 7;
    if FindName(s, 0).Some? {
      EmptyValueReadsBody(s, v);
      x := v;
    } else {
      MissingNameReadsBody(s, v);
      x := NAME + v;
    }
  }

  /** The length is independent of the body if and only if the header settles it. */
  lemma LengthIsSettledIff(s: string)
    requires EndsInSpace(s)
    ensures (forall x :: ParseContentLength(s + x) == ParseContentLength(s)) <==> Settled(s)
  {
    if Settled(s) {
      forall x
        ensures ParseContentLength(s + x) == ParseContentLength(s)
      {
        ParseStable(s, x);
      }
    } else {
      var x := UnsettledReadsBody(s);
      assert ParseContentLength(s + x) != ParseContentLength(s);
    }
  }

  // ---------------------------------------------------------------- the number that is read

  /** A number in decimal notation. */
  function Render(n: nat): (d: string)
    ensures d != "" && forall k :: 0 <= k < |d| ==> IsDigit(d[k])
  {
    if n < 10 then [('0' as int + n) as char] else Render(n / 10) + [('0' as int + n % 10) as char]
  }

  lemma {:induction false} RenderIsRead(n: nat)
    ensures Decimal(Render(n)) == n
  {
    var d := Render(n);
    var k := |d| - 1;
    if n < 10 {
      assert d[..k] == "" && Digit(d[k]) == n;
    } else {
      RenderIsRead(n / 10);
      assert d[..k] == Render(n / 10) && Digit(d[k]) == n % 10;
    }
  }

  /** Two texts that differ at most in the case of letters. */
  predicate SameFolded(a: string, b: string) {
    |a| == |b| && forall k :: 0 <= k < |a| ==> SameLetter(a[k], b[k])
  }

  predicate SameLetter(a: char, b: char) {
    || a == b
    || ('A' <= a <= 'Z' && b as int == a as int + 32)
    || ('A' <= b <= 'Z' && a as int == b as int + 32)
  }

  /** The header mentions its length, in upper or lower case. */
  ghost predicate Mentions(s: string) {
    exists i :: MentionAt(s, i)
  }

  predicate MentionAt(s: string, i: int) {
    0 <= i <= |s| - 15 && SameFolded(s[i..i + 15], "Content-Length:")
  }

  lemma NameMeans(t: string)
    ensures IsName(t) <==> SameFolded(t, "Content-Length:")
  {
    var l := "Content-Length:";
    assert |l| == |NAME| == 15;
    LiteralFolds(l);
    if IsName(t) {
      forall k | 0 <= k < |t|
        ensures SameLetter(t[k], l[k])
      {
        assert Lower(t[k]) == NAME[k] == Lower(l[k]);
      }
    }
    if SameFolded(t, l) {
      forall k | 0 <= k < |t|
        ensures Lower(t[k]) == NAME[k]
      {
        assert SameLetter(t[k], l[k]) && Lower(l[k]) == NAME[k];
      }
    }
  }

  lemma LiteralFolds(l: string)
    requires l == "Content-Length:"
    ensures forall k :: 0 <= k < 15 ==> Lower(l[k]) == NAME[k]
  {
  }

  /** The colon of the name is its last character and no other. */
  lemma NameColon(t: string)
    requires IsName(t)
    ensures |t| == 15 && t[14] == ':' && forall k :: 0 <= k < 14 ==> t[k] != ':'
  {
    assert forall k :: 0 <= k < 15 ==> Lower(t[k]) == NAME[k];
  }

  lemma NoColonNoName(t: string)
    requires |t| == 15 && t[14] != ':'
    ensures !IsName(t)
  {
    if IsName(t) {
      NameColon(t);
    }
  }

  /** Before the header's own mention there is none, also none that only begins there. */
  lemma NameIsFirst(pre: string, l: string, x: string)
    requires !Mentions(pre) && IsName(l)
    ensures FindName(pre + (l + x), 0) == Some(|pre|)
  {
    hide IsName, SameFolded;
    var t := pre + (l + x);
    NameColon(l);
    assert t[|pre|..|pre| + 15] == l;
    forall j | 0 <= j < |pre|
      ensures !NameAt(t, j)
    {
      NoEarlierName(pre, l, x, j);
    }
    FindNameAt(t, 0, |pre|);
  }

  lemma NoEarlierName(pre: string, l: string, x: string, j: nat)
    requires !Mentions(pre) && IsName(l) && j < |pre|
    ensures !NameAt(pre + (l + x), j)
  {
    hide IsName, SameFolded;
    var t := pre + (l + x);
    NameColon(l);
    var w := t[j..j + 15];
    if j + 15 <= |pre| {
      NameMeans(w);
      assert w == pre[j..j + 15];
      assert !MentionAt(pre, j);
    } else {
      assert w[14] == t[j + 14] == l[j + 14 - |pre|];
      NoColonNoName(w);
    }
  }

  lemma {:induction false} DigitsEndAt(s: string, i: nat, e: nat)
    requires i <= e < |s| && !IsDigit(s[e]) && forall k :: i <= k < e ==> IsDigit(s[k])
    ensures SkipDigits(s, i) == e
    decreases e - i
  {
    if i < e {
      DigitsEndAt(s, i + 1, e);
    }
  }

  /** Digits from position d on, as many as v has. */
  ghost predicate NumberAt(s: string, d: nat, v: string) {
    IsNumber(v) && d + |v| < |s| && s[d..d + |v|] == v && !IsDigit(s[d + |v|])
  }

  lemma NumberIsRead(s: string, d: nat, v: string)
    requires NumberAt(s, d, v)
    ensures d < |s| && IsDigit(s[d]) && Number(s, d) == NumberOf(v)
  {
    var e := d + |v|;
    assert forall k :: d <= k < e ==> s[k] == s[d..e][k - d] == v[k - d];
    DigitsEndAt(s, d, e);
  }

  lemma OneBlank(s: string, p: nat)
    requires p + 1 < |s| && s[p] == ' ' && !IsSpace(s[p + 1])
    ensures SkipBlanks(s, p) == p + 1 && SkipSpace(s, p + 1) == p + 1
  {
    assert SkipBlanks(s, p + 1) == p + 1;
  }

  lemma ParseValueIs(s: string, p: nat, d: nat)
    requires 0 < p <= |s| && d == DigitsAt(s, SkipBlanks(s, p)) && d < |s| && IsDigit(s[d])
    ensures ParseValue(s, p) == if s[d - 1] == '-' && Number(s, d) > 0 then -1 else Number(s, d)
  {
    hide Number, DigitsAt, SkipBlanks;
  }

  /** A blank, perhaps a sign, and then the number at position d. */
  lemma ValueIsRead(s: string, p: nat, d: nat, v: string)
    requires p > 0 && NumberAt(s, d, v) && p < d && s[p] == ' '
    requires d == p + 1 || (d == p + 2 && (s[p + 1] == '+' || s[p + 1] == '-'))
    ensures ParseValue(s, p) == if s[d - 1] == '-' && NumberOf(v) > 0 then -1 else NumberOf(v)
    ensures SkipSpace(s, SkipBlanks(s, p)) < |s|
  {
    NumberIsRead(s, d, v);
    OneBlank(s, p);
    hide ParseValue, NumberAt, Number, NumberOf, SkipBlanks, SkipSpace;
    ParseValueIs(s, p, d);
  }

  /** A text behind two others. */
  lemma ThirdPart(a: string, b: string, v: string, x: string)
    requires x != "" && IsNumber(v) && !IsDigit(x[0])
    ensures NumberAt(a + (b + (v + x)), |a| + |b|, v)
  {
    var s, d := a + (b + (v + x)), |a| + |b|;
    assert s[d..] == v + x;
    assert s[d..d + |v|] == s[d..][..|v|] == v;
    assert s[d + |v|] == x[0];
  }

  /** A response header that gives its length as a number has that length, whatever stands before and
      behind the number and however the name is written; what does not fit 63 bits is cut. Such a header
      settles its length. */
  lemma LengthIsRead(pre: string, name: string, n: nat, x: string)
    requires !Mentions(pre) && SameFolded(name, "Content-Length:")
    requires x != "" && (x[0] < '0' || x[0] > '9')
    ensures var s := pre + ((name + " ") + (Render(n) + x));
            ParseContentLength(s) == (if n <= 9223372036854775807 then n else 9223372036854775807) && Settled(s)
  {
    hide FindName, ParseValue, IsName, SameFolded, NumberAt, SkipSpace, SkipBlanks;
    var v := Render(n);
    NameMeans(name);
    NameColon(name);
    RenderIsRead(n);
    var s := pre + ((name + " ") + (v + x));
    assert (name + " ") + (v + x) == name + (" " + (v + x));
    NameIsFirst(pre, name, " " + (v + x));
    ThirdPart(pre, name + " ", v, x);
    assert s[|pre| + 15] == (name + " ")[15] == ' ';
    ValueIsRead(s, |pre| + 15, |pre| + 16, v);
  }

  /** A plus sign changes nothing. */
  lemma SignedLengthIsRead(pre: string, name: string, n: nat, x: string)
    requires !Mentions(pre) && SameFolded(name, "Content-Length:") && n <= 9223372036854775807
    requires x != "" && (x[0] < '0' || x[0] > '9')
    ensures ParseContentLength(pre + ((name + " +") + (Render(n) + x))) == n
  {
    hide FindName, ParseValue, IsName, SameFolded, NumberAt, SkipSpace, SkipBlanks;
    var v := Render(n);
    NameMeans(name);
    NameColon(name);
    RenderIsRead(n);
    var s := pre + ((name + " +") + (v + x));
    assert (name + " +") + (v + x) == name + (" +" + (v + x));
    NameIsFirst(pre, name, " +" + (v + x));
    ThirdPart(pre, name + " +", v, x);
    assert s[|pre| + 15] == (name + " +")[15] == ' ' && s[|pre| + 16] == (name + " +")[16] == '+';
    ValueIsRead(s, |pre| + 15, |pre| + 17, v);
  }

  /** A number below zero gives none. */
  lemma NegativeLengthIsNone(pre: string, name: string, n: nat, x: string)
    requires !Mentions(pre) && SameFolded(name, "Content-Length:") && n > 0
    requires x != "" && (x[0] < '0' || x[0] > '9')
    ensures var s := pre + ((name + " -") + (Render(n) + x));
            ParseContentLength(s) == -1 && Settled(s)
  {
    hide FindName, ParseValue, IsName, SameFolded, NumberAt, SkipSpace, SkipBlanks;
    var v := Render(n);
    NameMeans(name);
    NameColon(name);
    RenderIsRead(n);
    var s := pre + ((name + " -") + (v + x));
    assert (name + " -") + (v + x) == name + (" -" + (v + x));
    NameIsFirst(pre, name, " -" + (v + x));
    ThirdPart(pre, name + " -", v, x);
    assert s[|pre| + 15] == (name + " -")[15] == ' ' && s[|pre| + 16] == (name + " -")[16] == '-';
    ValueIsRead(s, |pre| + 15, |pre| + 17, v);
  }

  /** White space of C: blank, tabs, line ends, form feed. */
  predicate White(w: string) {
    forall k :: 0 <= k < |w| ==> w[k] in {' ', '\t', '\n', '\U{000B}', '\U{000C}', '\r'}
  }

  lemma {:induction false} SkipsWhite(s: string, i: nat)
    requires i <= |s| && White(s[i..])
    ensures SkipSpace(s, i) == |s|
    decreases |s| - i
  {
    if i < |s| {
      assert s[i..][0] == s[i];
      assert s[i + 1..] == s[i..][1..];
      SkipsWhite(s, i + 1);
    }
  }

  lemma {:induction false} BlanksAreWhite(s: string, i: nat)
    requires i <= |s| && White(s[i..])
    ensures White(s[SkipBlanks(s, i)..])
    decreases |s| - i
  {
    if i < |s| && (s[i] == ' ' || s[i] == '\t') {
      assert s[i + 1..] == s[i..][1..];
      BlanksAreWhite(s, i + 1);
    }
  }

  /** A header that ends with the name and white space, however much, has no length of its own and takes
      any number at the start of the body. */
  lemma WhiteValueReadsBody(pre: string, name: string, w: string, n: nat)
    requires !Mentions(pre) && SameFolded(name, "Content-Length:") && White(w)
    ensures var s := pre + (name + w);
            && ParseContentLength(s) == -1 && !Settled(s)
            && ParseContentLength(s + Render(n)) == (if n <= 9223372036854775807 then n else 9223372036854775807)
  {
    hide FindName, ParseValue, IsName, SameFolded;
    var s, p := pre + (name + w), |pre| + 15;
    NameMeans(name);
    NameColon(name);
    NameIsFirst(pre, name, w);
    assert s[p..] == w;
    BlanksAreWhite(s, p);
    SkipsWhite(s, SkipBlanks(s, p));
    FindNameStable(s, Render(n), 0);
    RenderIsRead(n);
    assert s[|s| - 1] == if w == "" then name[14] else w[|w| - 1];
    ValueReadsOn(s, Render(n), p);
  }

  /** Anything else behind the name gives no length. */
  lemma JunkIsNone(pre: string, name: string, c: char, x: string)
    requires !Mentions(pre) && SameFolded(name, "Content-Length:")
    requires c !in {' ', '\t', '\n', '\U{000B}', '\U{000C}', '\r', '+', '-'} && (c < '0' || c > '9')
    ensures var s := pre + (name + ([c] + x)); ParseContentLength(s) == -1 && Settled(s)
  {
    hide FindName, IsName, SameFolded;
    var s, p := pre + (name + ([c] + x)), |pre| + 15;
    NameMeans(name);
    NameColon(name);
    NameIsFirst(pre, name, [c] + x);
    assert s[p] == c;
    assert SkipBlanks(s, p) == p && SkipSpace(s, p) == p;
  }
}
