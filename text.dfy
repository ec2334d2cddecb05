/** The string operations of Python's standard library that the script relies
    on: whitespace tests, `str.strip`, `re.sub('\s+', '+', s)`, `str.lower`,
    `str.split(sep)` and `int(s)`. */
module Text {
  import opened Wrappers

  /** Python's `str.isspace`. The same set of characters is what `str.strip()`
      removes and what `\s` matches in a `str` pattern of the `re` module. */
  predicate IsWhitespace(c: char) {
    c in WhitespaceChars
  }

  const WhitespaceChars: set<char> :=
    {'\t', '\n', '\U{0B}', '\U{0C}', '\r', '\U{1C}', '\U{1D}', '\U{1E}', '\U{1F}', ' ', '\U{85}', '\U{A0}',
     '\U{1680}', '\U{2000}', '\U{2001}', '\U{2002}', '\U{2003}', '\U{2004}', '\U{2005}', '\U{2006}',
     '\U{2007}', '\U{2008}', '\U{2009}', '\U{200A}', '\U{2028}', '\U{2029}', '\U{202F}', '\U{205F}',
     '\U{3000}'}

  predicate NoWhitespace(s: string) {
    forall i :: 0 <= i < |s| ==> !IsWhitespace(s[i])
  }

  predicate AllWhitespace(s: string) {
    forall i :: 0 <= i < |s| ==> IsWhitespace(s[i])
  }

  /** Length of the whitespace run that begins `s`. */
  function LeadingWhitespace(s: string): (n: nat)
    ensures n <= |s|
  {
    if s == [] || !IsWhitespace(s[0]) then 0 else 1 + LeadingWhitespace(s[1..])
  }

  /** Length of the whitespace run that ends `s`. */
  function TrailingWhitespace(s: string): (n: nat)
    ensures n <= |s|
  {
    if s == [] || !IsWhitespace(s[|s| - 1]) then 0 else 1 + TrailingWhitespace(s[..|s| - 1])
  }

  /** The leading run is all whitespace and is not followed by whitespace. */
  lemma {:induction false} LeadingWhitespaceSpans(s: string)
    ensures AllWhitespace(s[..LeadingWhitespace(s)])
    ensures LeadingWhitespace(s) < |s| ==> !IsWhitespace(s[LeadingWhitespace(s)])
  {
    if s != [] && IsWhitespace(s[0]) {
      LeadingWhitespaceSpans(s[1..]);
      var n := LeadingWhitespace(s);
      assert s[..n] == [s[0]] + s[1..][..n - 1];
      if n < |s| {
        assert s[n] == s[1..][n - 1];
      }
    }
  }

  /** The trailing run is all whitespace and is not preceded by whitespace. */
  lemma {:induction false} TrailingWhitespaceSpans(s: string)
    ensures AllWhitespace(s[|s| - TrailingWhitespace(s)..])
    ensures TrailingWhitespace(s) < |s| ==> !IsWhitespace(s[|s| - TrailingWhitespace(s) - 1])
  {
    if s != [] && IsWhitespace(s[|s| - 1]) {
      var t := s[..|s| - 1];
      TrailingWhitespaceSpans(t);
      var n := TrailingWhitespace(s);
      assert s[|s| - n..] == t[|t| - (n - 1)..] + [s[|s| - 1]];
      if n < |s| {
        assert s[|s| - n - 1] == t[|t| - (n - 1) - 1];
      }
    }
  }

  /** `core` is what is left of `p + core + q` once the whitespace at both ends is gone. */
  predicate IsStrippedCore(p: string, core: string, q: string) {
    AllWhitespace(p) && AllWhitespace(q)
    && (core == [] || (!IsWhitespace(core[0]) && !IsWhitespace(core[|core| - 1])))
  }

  /** Python's `s.strip()`. */
  function Strip(s: string): (r: string)
    ensures |r| <= |s|
  {
    var t := s[LeadingWhitespace(s)..];
    t[..|t| - TrailingWhitespace(t)]
  }

  lemma {:induction false} LeadingWhitespaceIs(s: string, n: nat)
    requires n <= |s| && AllWhitespace(s[..n]) && (n < |s| ==> !IsWhitespace(s[n]))
    ensures LeadingWhitespace(s) == n
  {
    if n > 0 {
      assert s[..n][0] == s[0];
      assert s[1..][..n - 1] == s[..n][1..];
      LeadingWhitespaceIs(s[1..], n - 1);
    }
  }

  lemma {:induction false} TrailingWhitespaceIs(s: string, n: nat)
    requires n <= |s| && AllWhitespace(s[|s| - n..]) && (n < |s| ==> !IsWhitespace(s[|s| - n - 1]))
    ensures TrailingWhitespace(s) == n
  {
    if n > 0 {
      assert s[|s| - n..][n - 1] == s[|s| - 1];
      var t := s[..|s| - 1];
      assert |t| - (n - 1) == |s| - n;
      assert t[|s| - n..] == s[|s| - n..][..n - 1];
      if n < |s| {
        assert t[|s| - n - 1] == s[|s| - n - 1];
      }
      TrailingWhitespaceIs(t, n - 1);
    }
  }

  /** Whatever whitespace surrounds a core, `strip` returns exactly that core. */
  lemma StripReturnsCore(p: string, core: string, q: string)
    requires IsStrippedCore(p, core, q)
    ensures Strip(p + core + q) == core
  {
    var s := p + core + q;
    if core == [] {
      assert s == p + q;
      assert AllWhitespace(s) by {
        forall i | 0 <= i < |s| ensures IsWhitespace(s[i]) {
          if i < |p| { assert s[i] == p[i]; } else { assert s[i] == q[i - |p|]; }
        }
      }
      assert s[..|s|] == s;
      LeadingWhitespaceIs(s, |s|);
      assert s[|s|..] == [];
    } else {
      assert s[..|p|] == p;
      assert s[|p|] == core[0];
      LeadingWhitespaceIs(s, |p|);
      var t := s[|p|..];
      assert t == core + q;
      assert t[|t| - |q|..] == q;
      assert t[|t| - |q| - 1] == core[|core| - 1];
      TrailingWhitespaceIs(t, |q|);
      assert t[..|t| - |q|] == core;
    }
  }

  /** `strip` only ever removes whitespace, and only at the two ends. */
  lemma StripIsCore(s: string) returns (l: nat)
    ensures l + |Strip(s)| <= |s| && s[l..l + |Strip(s)|] == Strip(s)
    ensures IsStrippedCore(s[..l], Strip(s), s[l + |Strip(s)|..])
  {
    l := LeadingWhitespace(s);
    var t := s[l..];
    var k := TrailingWhitespace(t);
    LeadingWhitespaceSpans(s);
    TrailingWhitespaceSpans(t);
    CoreBetweenRuns(s, l, t, k);
  }

  /** Cutting a leading run of length `l` and a trailing run of length `k` off `s`, where
      what remains starts and ends with a non-whitespace character, leaves a stripped core
      that sits in `s` between the two runs. */
  lemma CoreBetweenRuns(s: string, l: nat, t: string, k: nat)
    requires l <= |s| && t == s[l..] && k <= |t|
    requires AllWhitespace(s[..l]) && AllWhitespace(t[|t| - k..])
    requires l < |s| ==> !IsWhitespace(s[l])
    requires k < |t| ==> !IsWhitespace(t[|t| - k - 1])
    ensures var r := t[..|t| - k];
      s[l..l + |r|] == r && IsStrippedCore(s[..l], r, s[l + |r|..])
  {
    var r := t[..|t| - k];
    assert s[l + |r|..] == t[|t| - k..];
    if r != [] {
      assert r[0] == s[l];
      assert r[|r| - 1] == t[|t| - k - 1];
    }
  }

  /** Python's `re.sub('\s+', '+', s)`: every maximal whitespace run becomes one `+`
      (written here as: a whitespace character is dropped when another one follows it,
      and becomes `+` when it ends its run). */
  function Collapse(s: string): (r: string)
    ensures |r| <= |s|
  {
    if s == [] then []
    else if !IsWhitespace(s[0]) then [s[0]] + Collapse(s[1..])
    else if |s| > 1 && IsWhitespace(s[1]) then Collapse(s[1..])
    else "+" + Collapse(s[1..])
  }

  /** The collapsed text holds no whitespace. */
  lemma {:induction false} CollapseHasNoWhitespace(s: string)
    ensures NoWhitespace(Collapse(s))
  {
    if s != [] {
      CollapseHasNoWhitespace(s[1..]);
      var tail := Collapse(s[1..]);
      var r := Collapse(s);
      var h := if !IsWhitespace(s[0]) then [s[0]] else if |s| > 1 && IsWhitespace(s[1]) then [] else "+";
      assert r == h + tail;
      assert !IsWhitespace('+');
      forall i | 0 <= i < |r| ensures !IsWhitespace(r[i]) {
        if i >= |h| {
          assert r[i] == tail[i - |h|];
        }
      }
    }
  }

  /** Text without whitespace passes through unchanged. */
  lemma {:induction false} CollapseKeepsPlainText(s: string)
    requires NoWhitespace(s)
    ensures Collapse(s) == s
  {
    if s != [] {
      CollapseKeepsPlainText(s[1..]);
    }
  }

  /** A whole whitespace run becomes exactly one `+`. */
  lemma {:induction false} CollapseRun(w: string)
    requires w != [] && AllWhitespace(w)
    ensures Collapse(w) == "+"
  {
    if |w| > 1 {
      CollapseRun(w[1..]);
    }
  }

  /** Collapsing works piece by piece, as long as the cut does not fall inside a whitespace run. */
  lemma {:induction false} CollapseConcat(a: string, b: string)
    requires a == [] || b == [] || !IsWhitespace(a[|a| - 1]) || !IsWhitespace(b[0])
    ensures Collapse(a + b) == Collapse(a) + Collapse(b)
  {
    if a == [] {
      assert a + b == b;
    } else {
      CollapseConcat(a[1..], b);
      CollapseConcatHead(a, b);
    }
  }

  /** The first character of `a` contributes the same to `Collapse(a + b)` as to `Collapse(a)`. */
  lemma CollapseConcatHead(a: string, b: string)
    requires a != [] && (b == [] || !IsWhitespace(a[|a| - 1]) || !IsWhitespace(b[0]))
    requires Collapse(a[1..] + b) == Collapse(a[1..]) + Collapse(b)
    ensures Collapse(a + b) == Collapse(a) + Collapse(b)
  {
    if !IsWhitespace(a[0]) {
      HeadKept(a, b);
    } else if |a| == 1 {
      LastSpaceKept(a, b);
    } else {
      if IsWhitespace(a[1]) {
        HeadDropped(a, b);
      } else {
        HeadReplaced(a, b);
      }
    }
  }

  /** A first character that is not whitespace is copied. */
  lemma HeadKept(a: string, b: string)
    requires a != [] && !IsWhitespace(a[0])
    requires Collapse(a[1..] + b) == Collapse(a[1..]) + Collapse(b)
    ensures Collapse(a + b) == Collapse(a) + Collapse(b)
  {
    assert (a + b)[0] == a[0];
    assert (a + b)[1..] == a[1..] + b;
    var rest := Collapse(a[1..]);
    assert Collapse(a + b) == [a[0]] + (rest + Collapse(b));
    assert Collapse(a) == [a[0]] + rest;
  }

  /** Whitespace followed by more whitespace is dropped. */
  lemma HeadDropped(a: string, b: string)
    requires |a| > 1 && IsWhitespace(a[0]) && IsWhitespace(a[1])
    requires Collapse(a[1..] + b) == Collapse(a[1..]) + Collapse(b)
    ensures Collapse(a + b) == Collapse(a) + Collapse(b)
  {
    assert (a + b)[0] == a[0] && (a + b)[1] == a[1];
    assert (a + b)[1..] == a[1..] + b;
  }

  /** Whitespace that ends a run inside `a` becomes `+`. */
  lemma HeadReplaced(a: string, b: string)
    requires |a| > 1 && IsWhitespace(a[0]) && !IsWhitespace(a[1])
    requires Collapse(a[1..] + b) == Collapse(a[1..]) + Collapse(b)
    ensures Collapse(a + b) == Collapse(a) + Collapse(b)
  {
    assert (a + b)[0] == a[0] && (a + b)[1] == a[1];
    assert (a + b)[1..] == a[1..] + b;
    var rest := Collapse(a[1..]);
    assert Collapse(a + b) == "+" + (rest + Collapse(b));
    assert Collapse(a) == "+" + rest;
  }

  /** A single whitespace character before a cut that ends its run becomes `+`. */
  lemma LastSpaceKept(a: string, b: string)
    requires |a| == 1 && IsWhitespace(a[0]) && (b == [] || !IsWhitespace(b[0]))
    ensures Collapse(a + b) == Collapse(a) + Collapse(b)
  {
    assert (a + b)[0] == a[0];
    assert (a + b)[1..] == a[1..] + b;
    assert a[1..] == [];
    assert Collapse(a) == "+";
    if b != [] {
      assert (a + b)[1] == b[0];
    }
    assert Collapse(a + b) == "+" + Collapse(b);
  }

  /** A text that begins with a non-whitespace character keeps it in front. */
  lemma CollapseKeepsFirst(t: string)
    requires t != [] && !IsWhitespace(t[0])
    ensures Collapse(t) != [] && Collapse(t)[0] == t[0]
  {
  }

  /** A text that ends with a non-whitespace character keeps it at the end. */
  lemma CollapseKeepsLast(t: string)
    requires t != [] && !IsWhitespace(t[|t| - 1])
    ensures Collapse(t) != [] && Collapse(t)[|Collapse(t)| - 1] == t[|t| - 1]
  {
    var n := |t|;
    CollapseConcat(t[..n - 1], [t[n - 1]]);
    assert t[..n - 1] + [t[n - 1]] == t;
    CollapseKeepsPlainText([t[n - 1]]);
  }

  /** Two words around one whitespace character collapse to the words joined by `+`. */
  lemma CollapseTwoWords(a: string, c: char, b: string)
    requires a != [] && b != [] && NoWhitespace(a) && NoWhitespace(b) && IsWhitespace(c)
    ensures Collapse(a + [c] + b) == a + "+" + b
  {
    CollapseSeparatorThenWord(c, b);
    CollapseConcat(a, [c] + b);
    CollapseKeepsPlainText(a);
    assert a + [c] + b == a + ([c] + b);
  }

  lemma CollapseSeparatorThenWord(c: char, b: string)
    requires b != [] && NoWhitespace(b) && IsWhitespace(c)
    ensures Collapse([c] + b) == "+" + b
  {
    CollapseConcat([c], b);
    CollapseRun([c]);
    CollapseKeepsPlainText(b);
  }

  predicate IsAsciiUpper(c: char) {
    'A' <= c <= 'Z'
  }

  function LowerChar(c: char): char {
    if IsAsciiUpper(c) then (c as int + 32) as char else c
  }

  /** Python's `s.lower()` on ASCII letters. */
  function Lower(s: string): (r: string)
    ensures |r| == |s|
    ensures forall i :: 0 <= i < |s| ==> !IsAsciiUpper(r[i])
    ensures forall i :: 0 <= i < |s| ==> LowerChar(r[i]) == LowerChar(s[i])
  {
    seq(|s|, i requires 0 <= i < |s| => LowerChar(s[i]))
  }

  /** Python's `s.split(sep)` with an explicit one-character separator:
      the fields between consecutive occurrences of `sep`, empty ones included. */
  function Split(s: string, sep: char): (fields: seq<string>)
    ensures |fields| >= 1
    ensures forall k :: 0 <= k < |fields| ==> sep !in fields[k]
  {
    if s == [] then [[]]
    else
      var rest := Split(s[1..], sep);
      if s[0] == sep then [[]] + rest
      else [[s[0]] + rest[0]] + rest[1..]
  }

  /** Python's `sep.join(fields)`. */
  function Join(fields: seq<string>, sep: string): (s: string)
  {
    if |fields| == 0 then []
    else if |fields| == 1 then fields[0]
    else fields[0] + sep + Join(fields[1..], sep)
  }

  /** Joining the fields of a split with the separator gives back the original text. */
  lemma {:induction false} JoinSplit(s: string, sep: char)
    ensures Join(Split(s, sep), [sep]) == s
  {
    if s != [] {
      var rest := Split(s[1..], sep);
      JoinSplit(s[1..], sep);
      if s[0] != sep && |rest| > 1 {
        assert Split(s, sep)[1..] == rest[1..];
      }
    }
  }

  lemma {:induction false} SplitPrefix(w: string, t: string, sep: char)
    requires sep !in w
    ensures Split(w + t, sep) == [w + Split(t, sep)[0]] + Split(t, sep)[1..]
  {
    if w != [] {
      assert (w + t)[0] == w[0];
      assert (w + t)[1..] == w[1..] + t;
      SplitPrefix(w[1..], t, sep);
      assert [w[0]] + (w[1..] + Split(t, sep)[0]) == w + Split(t, sep)[0];
    } else {
      assert w + t == t;
      assert w + Split(t, sep)[0] == Split(t, sep)[0];
      assert Split(t, sep) == [Split(t, sep)[0]] + Split(t, sep)[1..];
    }
  }

  /** Splitting a join of separator-free fields gives back the fields. */
  lemma {:induction false} SplitJoin(fields: seq<string>, sep: char)
    requires |fields| >= 1
    requires forall k :: 0 <= k < |fields| ==> sep !in fields[k]
    ensures Split(Join(fields, [sep]), sep) == fields
  {
    if |fields| == 1 {
      SplitPrefix(fields[0], [], sep);
      assert fields[0] + [] == fields[0];
    } else {
      var tail := Join(fields[1..], [sep]);
      assert Split(tail, sep) == fields[1..] by {
        var more := fields[1..];
        forall k | 0 <= k < |more| ensures sep !in more[k] {
          assert more[k] == fields[k + 1];
        }
        SplitJoin(more, sep);
      }
      assert Split([sep] + tail, sep) == [[]] + fields[1..] by {
        assert ([sep] + tail)[0] == sep;
        assert ([sep] + tail)[1..] == tail;
      }
      assert Split(fields[0] + ([sep] + tail), sep) == [fields[0]] + fields[1..] by {
        SplitPrefix(fields[0], [sep] + tail, sep);
        assert fields[0] + [] == fields[0];
      }
      assert Join(fields, [sep]) == fields[0] + ([sep] + tail);
    }
  }

  predicate IsDigit(c: char) {
    '0' <= c <= '9'
  }

  predicate AllDigits(s: string) {
    forall i :: 0 <= i < |s| ==> IsDigit(s[i])
  }

  /** The value of a string of decimal digits, most significant first. */
  function DigitsValue(ds: string): nat
    requires AllDigits(ds)
  {
    if ds == [] then 0
    else DigitsValue(ds[..|ds| - 1]) * 10 + (ds[|ds| - 1] as int - '0' as int)
  }

  /** The default of `sys.get_int_max_str_digits()`: `int()` refuses a decimal string
      with more digits than this. */
  const IntMaxStrDigits := 4300

  /** U+001C to U+001F: `str.isspace` accepts them, but `int()` skips only the whitespace
      of C's `isspace` and non-ASCII whitespace, so it refuses them. */
  predicate IsInfoSeparator(c: char) {
    '\U{1C}' <= c <= '\U{1F}'
  }

  /** Python's `int(s)` for a decimal literal: surrounding whitespace, an optional
      sign and one to `IntMaxStrDigits` ASCII digits; anything else is a ValueError (`None`).
      An information separator is refused wherever it stands: around the literal it is not
      skipped, and inside it it is not a digit. */
  function ParseInt(s: string): (r: Option<int>)
    ensures r.Some? ==> forall i :: 0 <= i < |s| ==> !IsInfoSeparator(s[i])
    ensures r.Some? ==> 1 <= |Strip(s)| <= IntMaxStrDigits + 1
    ensures r.Some? ==> IsDigit(Strip(s)[|Strip(s)| - 1])
    ensures r.Some? && r.value < 0 ==> Strip(s)[0] == '-'
  {
    if exists i :: 0 <= i < |s| && IsInfoSeparator(s[i]) then None
    else ParseSigned(Strip(s))
  }

  /** An optional sign followed by one to `IntMaxStrDigits` ASCII digits, with nothing around them. */
  function ParseSigned(t: string): Option<int>
  {
    var signed := |t| > 0 && (t[0] == '+' || t[0] == '-');
    var digits := if signed then t[1..] else t;
    if digits != [] && |digits| <= IntMaxStrDigits && AllDigits(digits) then
      Some(if signed && t[0] == '-' then -(DigitsValue(digits) as int) else DigitsValue(digits))
    else None
  }

  function DigitChar(d: nat): (c: char)
    requires d < 10
    ensures IsDigit(c)
  {
    ('0' as int + d) as char
  }

  /** The shortest decimal representation of `n`. */
  function Decimal(n: nat): (s: string)
    ensures s != [] && AllDigits(s)
  {
    if n < 10 then [DigitChar(n)] else Decimal(n / 10) + [DigitChar(n % 10)]
  }

  /** `n` in decimal, left-padded with zeros to at least `width` characters
      (Python's `f"{n:0{width}d}"`, the layout of the timestamps the service sends). */
  function ZeroPadded(n: nat, width: nat): (s: string)
    ensures AllDigits(s) && |s| >= width
  {
    var ds := Decimal(n);
    seq(if width > |ds| then width - |ds| else 0, _ => '0') + ds
  }

  lemma {:induction false} DecimalValue(n: nat)
    ensures DigitsValue(Decimal(n)) == n
  {
    if n >= 10 {
      var ds := Decimal(n);
      assert ds[..|ds| - 1] == Decimal(n / 10);
      DecimalValue(n / 10);
    }
  }

  lemma {:induction false} LeadingZerosValue(z: string, ds: string)
    requires forall i :: 0 <= i < |z| ==> z[i] == '0'
    requires AllDigits(ds)
    ensures AllDigits(z + ds) && DigitsValue(z + ds) == DigitsValue(ds)
    decreases |z| + |ds|
  {
    if ds == [] {
      assert z + ds == z;
      if z != [] {
        LeadingZerosValue(z[..|z| - 1], []);
        assert z[..|z| - 1] + [] == z[..|z| - 1];
      }
    } else {
      assert (z + ds)[..|z + ds| - 1] == z + ds[..|ds| - 1];
      LeadingZerosValue(z, ds[..|ds| - 1]);
    }
  }

  lemma DigitIsNotWhitespace(c: char)
    requires IsDigit(c)
    ensures !IsWhitespace(c)
  {
  }

  /** `int` reads a plain string of at most `IntMaxStrDigits` digits as its decimal value. */
  lemma ParseDigits(s: string)
    requires s != [] && |s| <= IntMaxStrDigits && AllDigits(s)
    ensures ParseInt(s) == Some(DigitsValue(s) as int)
  {
    StripKeepsDigits(s);
    assert ParseSigned(s) == Some(DigitsValue(s) as int) by {
      assert IsDigit(s[0]);
    }
  }

  /** A longer digit string is refused: ValueError. */
  lemma ParseRejectsLongDigits(s: string)
    requires |s| > IntMaxStrDigits && AllDigits(s)
    ensures ParseInt(s) == None
  {
    StripKeepsDigits(s);
    assert IsDigit(s[0]);
  }

  lemma StripKeepsDigits(s: string)
    requires s != [] && AllDigits(s)
    ensures Strip(s) == s
  {
    DigitIsNotWhitespace(s[0]);
    DigitIsNotWhitespace(s[|s| - 1]);
    assert [] + s + [] == s;
    StripReturnsCore([], s, []);
  }

  /** `int` reads back what zero-padded decimal formatting writes, up to the digit limit. */
  lemma ParseZeroPadded(n: nat, width: nat)
    requires |ZeroPadded(n, width)| <= IntMaxStrDigits
    ensures ParseInt(ZeroPadded(n, width)) == Some(n)
  {
    var ds := Decimal(n);
    var z := seq(if width > |ds| then width - |ds| else 0, _ => '0');
    assert ZeroPadded(n, width) == z + ds;
    LeadingZerosValue(z, ds);
    DecimalValue(n);
    ParseDigits(z + ds);
  }

  function Pow10(k: nat): (p: nat)
    ensures p >= 1
  {
    if k == 0 then 1 else 10 * Pow10(k - 1)
  }

  /** A number below `10^k` is written in at most `k` digits. */
  lemma {:induction false} DecimalLength(n: nat, k: nat)
    requires 1 <= k && n < Pow10(k)
    ensures |Decimal(n)| <= k
  {
    if n >= 10 {
      assert n / 10 < Pow10(k - 1);
      DecimalLength(n / 10, k - 1);
    }
  }

  /** Padding a number below `10^width` gives exactly `width` digits. */
  lemma ZeroPaddedLength(n: nat, width: nat)
    requires 1 <= width && n < Pow10(width)
    ensures |ZeroPadded(n, width)| == width
  {
    DecimalLength(n, width);
  }
}
