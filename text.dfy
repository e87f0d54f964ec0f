/** The pieces of Python's string handling that the core relies on, over
    `seq<char>`: whitespace (`str.isspace`), `strip()`, `split()`, `" ".join`,
    ASCII `upper()`, and ASCII decimal numerals for `int()`, `str.isdigit()`
    and `f"{n:04d}"`. */
module Text {
  import opened Wrappers

  /** The characters Python's `str.isspace()` accepts. */
  predicate IsSpace(c: char) {
    || ('\t' <= c <= '\r')
    || (28 <= c as int <= 32)
    || c as int == 0x85 || c as int == 0xA0 || c as int == 0x1680
    || (0x2000 <= c as int <= 0x200A)
    || c as int == 0x2028 || c as int == 0x2029 || c as int == 0x202F
    || c as int == 0x205F || c as int == 0x3000
  }

  predicate IsWord(w: string) {
    w != [] && forall i :: 0 <= i < |w| ==> !IsSpace(w[i])
  }

  /** `s.lstrip()` */
  function StripLeft(s: string): (r: string)
    ensures |r| <= |s| && r == s[|s| - |r|..] && (r == [] || !IsSpace(r[0]))
    ensures forall i :: 0 <= i < |s| - |r| ==> IsSpace(s[i])
  {
    if s == [] || !IsSpace(s[0]) then s else StripLeft(s[1..])
  }

  /** `s.rstrip()` */
  function StripRight(s: string): (r: string)
    ensures |r| <= |s| && r == s[..|r|] && (r == [] || !IsSpace(r[|r| - 1]))
    ensures forall i :: |r| <= i < |s| ==> IsSpace(s[i])
  {
    if s == [] || !IsSpace(s[|s| - 1]) then s else StripRight(s[..|s| - 1])
  }

  /** `s.strip()` */
  function Strip(s: string): (r: string)
    ensures r == [] <==> forall i :: 0 <= i < |s| ==> IsSpace(s[i])
  {
    StripRight(StripLeft(s))
  }

  /** The longest prefix of `s` without whitespace. */
  function WordPrefix(s: string): (w: string)
    ensures w <= s && forall i :: 0 <= i < |w| ==> !IsSpace(w[i])
    ensures |w| < |s| ==> IsSpace(s[|w|])
  {
    if s == [] || IsSpace(s[0]) then [] else [s[0]] + WordPrefix(s[1..])
  }

  /** `s.split()`: the maximal runs of non-whitespace characters, in order. */
  function Split(s: string): (ws: seq<string>)
    ensures forall k :: 0 <= k < |ws| ==> IsWord(ws[k])
    decreases |s|
  {
    if s == [] then []
    else if IsSpace(s[0]) then Split(s[1..])
    else var w := WordPrefix(s); [w] + Split(s[|w|..])
  }

  /** `" ".join(ws)` */
  function JoinSpaced(ws: seq<string>): string {
    if ws == [] then "" else if |ws| == 1 then ws[0] else ws[0] + " " + JoinSpaced(ws[1..])
  }

  lemma WordPrefixOfWord(w: string, t: string)
    requires IsWord(w)
    requires t == [] || IsSpace(t[0])
    ensures WordPrefix(w + t) == w
  {
    if |w| > 1 {
      assert (w + t)[1..] == w[1..] + t;
      WordPrefixOfWord(w[1..], t);
    } else {
      assert (w + t)[1..] == t;
    }
  }

  lemma {:induction false} SplitLeadingSpace(t: string)
    ensures Split(" " + t) == Split(t)
  {
    assert (" " + t)[1..] == t;
  }

  /** Splitting the single-spaced join of words gives the words back. */
  lemma {:induction false} SplitJoin(ws: seq<string>)
    requires forall k :: 0 <= k < |ws| ==> IsWord(ws[k])
    ensures Split(JoinSpaced(ws)) == ws
  {
    if ws == [] {
    } else if |ws| == 1 {
      WordPrefixOfWord(ws[0], "");
      assert ws[0] + "" == ws[0];
      assert ws[0][|ws[0]|..] == [];
    } else {
      var w, rest := ws[0], JoinSpaced(ws[1..]);
      var s := w + (" " + rest);
      assert JoinSpaced(ws) == s;
      WordPrefixOfWord(w, " " + rest);
      assert s[|w|..] == " " + rest;
      SplitLeadingSpace(rest);
      SplitJoin(ws[1..]);
    }
  }

  /** Joining words by single spaces keeps a word at either end. */
  lemma {:induction false} JoinSpacedEnds(ws: seq<string>)
    requires ws != [] && forall k :: 0 <= k < |ws| ==> IsWord(ws[k])
    ensures var s := JoinSpaced(ws); s != [] && !IsSpace(s[0]) && !IsSpace(s[|s| - 1])
  {
    if |ws| > 1 {
      JoinSpacedEnds(ws[1..]);
      var rest := JoinSpaced(ws[1..]);
      assert JoinSpaced(ws) == ws[0] + " " + rest;
      assert JoinSpaced(ws)[0] == ws[0][0];
    }
  }

  /** `strip()` leaves a string alone that neither starts nor ends with whitespace. */
  lemma StripNoop(s: string)
    requires s == [] || (!IsSpace(s[0]) && !IsSpace(s[|s| - 1]))
    ensures Strip(s) == s
  {
  }

  /** A numeral is a word. */
  lemma DecimalIsWord(s: string)
    requires IsDecimal(s)
    ensures IsWord(s)
  {
  }

  /** ASCII `c.upper()` */
  function UpperChar(c: char): char {
    if 'a' <= c <= 'z' then (c as int - 'a' as int + 'A' as int) as char else c
  }

  /** ASCII `s.upper()` */
  function Upper(s: string): (r: string)
    ensures |r| == |s| && forall i :: 0 <= i < |s| ==> r[i] == UpperChar(s[i])
  {
    seq(|s|, i requires 0 <= i < |s| => UpperChar(s[i]))
  }

  predicate IsDigit(c: char) {
    '0' <= c <= '9'
  }

  /** `s.isdigit()` restricted to ASCII digits: non-empty and all digits. */
  predicate IsDecimal(s: string) {
    s != [] && forall i :: 0 <= i < |s| ==> IsDigit(s[i])
  }

  function DigitValue(c: char): nat
    requires IsDigit(c)
  {
    c as int - '0' as int
  }

  function DigitChar(d: nat): (c: char)
    requires d < 10
    ensures IsDigit(c) && DigitValue(c) == d
  {
    ('0' as int + d) as char
  }

  /** `int(s)` for a string of ASCII digits. */
  function DecimalValue(s: string): nat
    requires forall i :: 0 <= i < |s| ==> IsDigit(s[i])
  {
    if s == [] then 0 else 10 * DecimalValue(s[..|s| - 1]) + DigitValue(s[|s| - 1])
  }

  /** `int(s)`, for ASCII numerals only; `None` where `int` would raise. */
  function ParseDecimal(s: string): Option<nat> {
    if IsDecimal(s) then Some(DecimalValue(s)) else None
  }

  /** `str(n)` for a natural number. */
  function DecimalString(n: nat): (s: string)
    ensures IsDecimal(s)
  {
    if n < 10 then [DigitChar(n)] else DecimalString(n / 10) + [DigitChar(n % 10)]
  }

  /** `f"{n:0{width}d}"`: left-pad with zeros to at least `width` characters. */
  function ZeroPadded(s: string, width: nat): (r: string)
    ensures |r| == if |s| >= width then |s| else width
    ensures r[|r| - |s|..] == s && forall i :: 0 <= i < |r| - |s| ==> r[i] == '0'
    decreases width - |s|
  {
    if |s| >= width then s else ZeroPadded("0" + s, width)
  }

  /** Reading back a formatted number gives the number. */
  lemma {:induction false} DecimalRoundTrip(n: nat)
    ensures DecimalValue(DecimalString(n)) == n
    ensures ParseDecimal(DecimalString(n)) == Some(n)
  {
    if n >= 10 {
      var s := DecimalString(n);
      assert s[..|s| - 1] == DecimalString(n / 10);
      DecimalRoundTrip(n / 10);
    }
  }

  /** Leading zeros do not change the value of a numeral. */
  lemma {:induction false} LeadingZeros(z: string, s: string)
    requires forall i :: 0 <= i < |z| ==> z[i] == '0'
    requires forall i :: 0 <= i < |s| ==> IsDigit(s[i])
    ensures DecimalValue(z + s) == DecimalValue(s)
  {
    if s == [] {
      assert z + s == z;
      AllZeros(z);
    } else {
      assert (z + s)[..|z + s| - 1] == z + s[..|s| - 1];
      LeadingZeros(z, s[..|s| - 1]);
    }
  }

  lemma {:induction false} AllZeros(z: string)
    requires forall i :: 0 <= i < |z| ==> z[i] == '0'
    ensures DecimalValue(z) == 0
  {
    if z != [] {
      AllZeros(z[..|z| - 1]);
    }
  }

  /** Zero-padding a numeral keeps it a numeral. */
  lemma ZeroPaddedDecimal(s: string, width: nat)
    requires IsDecimal(s)
    ensures IsDecimal(ZeroPadded(s, width))
  {
    var r := ZeroPadded(s, width);
    assert forall i :: 0 <= i < |r| ==> IsDigit(r[i]) by {
      forall i | 0 <= i < |r| ensures IsDigit(r[i]) {
        if i >= |r| - |s| {
          assert r[i] == r[|r| - |s|..][i - (|r| - |s|)];
        }
      }
    }
  }

  /** A zero-padded numeral still reads back as its number. */
  lemma ZeroPaddedRoundTrip(n: nat, width: nat)
    ensures IsDecimal(ZeroPadded(DecimalString(n), width))
    ensures DecimalValue(ZeroPadded(DecimalString(n), width)) == n
  {
    ZeroPaddedDecimal(DecimalString(n), width);
    var s := DecimalString(n);
    var r := ZeroPadded(s, width);
    var z := r[..|r| - |s|];
    assert r == z + s;
    LeadingZeros(z, s);
    DecimalRoundTrip(n);
  }
}
