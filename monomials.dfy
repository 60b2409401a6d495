/** The polynomial side of the Tutte engine: the raw terms `x^c y^l` the
    deletion-contraction recursion emits, the simplifier that combines like
    terms and renders them, and the value of a polynomial at integer (x, y). */
module Monomials {

  /** One raw term `x^c y^l`. */
  datatype Monomial = Monomial(x: nat, y: nat)

  /** A simplified term: `coef` occurrences of one raw term. */
  datatype Term = Term(coef: nat, mono: Monomial)

  // ---------------------------------------------------------------------
  // Decimal digits: `str(n)` and reading it back
  // ---------------------------------------------------------------------

  predicate IsDigit(c: char)
  {
    '0' <= c <= '9'
  }

  function DigitValue(c: char): nat
    requires IsDigit(c)
  {
    c as int - '0' as int
  }

  function DigitChar(d: nat): (c: char)
    requires d < 10
    ensures IsDigit(c) && DigitValue(c) == d
  {
    ('0' as int + d) as char
  }

  predicate AllDigits(s: string)
  {
    forall i :: 0 <= i < |s| ==> IsDigit(s[i])
  }

  /** `str(n)`: the decimal digits of `n`. */
  function NatToString(n: nat): (s: string)
    ensures |s| >= 1 && AllDigits(s)
    decreases n
  {
    if n < 10 then [DigitChar(n)] else NatToString(n / 10) + [DigitChar(n % 10)]
  }

  /** The number a string of decimal digits denotes. */
  function ParseNat(s: string): nat
    requires AllDigits(s)
  {
    if s == [] then 0 else ParseNat(s[..|s| - 1]) * 10 + DigitValue(s[|s| - 1])
  }

  lemma {:induction false} ParseNatToString(n: nat)
    ensures ParseNat(NatToString(n)) == n
    decreases n
  {
    if n >= 10 {
      var s := NatToString(n);
      assert s[..|s| - 1] == NatToString(n / 10);
      ParseNatToString(n / 10);
    }
  }

  /** The length of the run of digits at the front of `s`. */
  function LeadingDigits(s: string): (k: nat)
    ensures k <= |s| && AllDigits(s[..k])
    ensures k < |s| ==> !IsDigit(s[k])
  {
    if s == [] || !IsDigit(s[0]) then 0
    else
      var k := 1 + LeadingDigits(s[1..]);
      assert s[..k] == [s[0]] + s[1..][..k - 1];
      k
  }

  lemma {:induction false} LeadingDigitsOf(d: string, rest: string)
    requires AllDigits(d)
    requires rest == [] || !IsDigit(rest[0])
    ensures LeadingDigits(d + rest) == |d|
  {
    if d != [] {
      assert (d + rest)[1..] == d[1..] + rest;
      LeadingDigitsOf(d[1..], rest);
    }
  }

  /** Reading back a rendered number followed by text that does not start
      with a digit. */
  lemma ReadNumber(n: nat, rest: string)
    requires rest == [] || !IsDigit(rest[0])
    ensures var s := NatToString(n) + rest; var k := LeadingDigits(s);
      k == |NatToString(n)| && s[..k] == NatToString(n) && s[k..] == rest
      && ParseNat(s[..k]) == n
  {
    LeadingDigitsOf(NatToString(n), rest);
    var s := NatToString(n) + rest;
    assert s[..|NatToString(n)|] == NatToString(n);
    ParseNatToString(n);
  }

  // ---------------------------------------------------------------------
  // Term texts
  // ---------------------------------------------------------------------

  /** The raw term the recursion emits: `"x^{c} y^{l}"`. */
  function RawText(m: Monomial): string
  {
    "x^" + NatToString(m.x) + " y^" + NatToString(m.y)
  }

  /** One half of a term after the simplifier's exponent checks: dropped for
      exponent 0, the bare variable for exponent 1, `v^n` otherwise. */
  function Factor(v: char, e: nat): string
  {
    if e == 0 then "" else if e == 1 then [v] else [v, '^'] + NatToString(e)
  }

  /** The simplifier's text for a raw term: when a 0 or a 1 occurs in it,
      the two halves with their exponents simplified, joined with no space;
      otherwise the raw term unchanged. */
  function MonoText(m: Monomial): string
  {
    var t := RawText(m);
    if '0' in t || '1' in t then Factor('x', m.x) + Factor('y', m.y) else t
  }

  /** A term of the simplified polynomial: the coefficient and a space in
      front unless the coefficient is 1. */
  function TermText(t: Term): string
  {
    if t.coef == 1 then MonoText(t.mono) else NatToString(t.coef) + " " + MonoText(t.mono)
  }

  /** The accumulator of the rendering loop: each term followed by `" + "`. */
  function Accumulated(ts: seq<Term>): string
  {
    if ts == [] then "" else Accumulated(ts[..|ts| - 1]) + TermText(ts[|ts| - 1]) + " + "
  }

  /** `polynomial[:-3]`: the accumulator without its last three characters. */
  function Render(ts: seq<Term>): string
  {
    var a := Accumulated(ts);
    if |a| >= 3 then a[..|a| - 3] else ""
  }

  /** `sep.join(parts)`. */
  function Join(parts: seq<string>, sep: string): string
  {
    if parts == [] then ""
    else if |parts| == 1 then parts[0]
    else parts[0] + sep + Join(parts[1..], sep)
  }

  lemma {:induction false} JoinAppend(parts: seq<string>, sep: string, p: string)
    requires parts != []
    ensures Join(parts + [p], sep) == Join(parts, sep) + sep + p
  {
    if |parts| > 1 {
      assert (parts + [p])[1..] == parts[1..] + [p];
      JoinAppend(parts[1..], sep, p);
    } else {
      assert (parts + [p])[1..] == [p];
    }
  }

  /** Where the first `" + "` in `s` starts, or `|s|` when there is none. */
  function FindSeparator(s: string): (k: nat)
    ensures k <= |s|
    ensures k < |s| ==> k + 3 <= |s| && s[k..k + 3] == " + "
  {
    if |s| < 3 then |s|
    else if s[..3] == " + " then 0
    else
      var k := 1 + FindSeparator(s[1..]);
      assert k < |s| ==> s[k..k + 3] == s[1..][k - 1..k + 2];
      k
  }

  /** `s.split(" + ")`. */
  function Split(s: string): (r: seq<string>)
    ensures |r| >= 1
    decreases |s|
  {
    var k := FindSeparator(s);
    if k == |s| then [s] else [s[..k]] + Split(s[k + 3..])
  }

  lemma {:induction false} FindSeparatorAfter(p: string, rest: string)
    requires '+' !in p
    ensures FindSeparator(p + " + " + rest) == |p|
  {
    var s := p + " + " + rest;
    if p != [] {
      assert s[1] != '+';
      assert s[1..] == p[1..] + " + " + rest;
      FindSeparatorAfter(p[1..], rest);
    }
  }

  lemma {:induction false} FindSeparatorNone(p: string)
    requires '+' !in p
    ensures FindSeparator(p) == |p|
  {
    if |p| >= 3 {
      assert p[1] != '+';
      FindSeparatorNone(p[1..]);
    }
  }

  /** Splitting texts without a `+` that were joined by `" + "` gives them back. */
  lemma {:induction false} SplitJoin(parts: seq<string>)
    requires parts != []
    requires forall i :: 0 <= i < |parts| ==> '+' !in parts[i]
    ensures Split(Join(parts, " + ")) == parts
  {
    if |parts| == 1 {
      FindSeparatorNone(parts[0]);
    } else {
      var rest := Join(parts[1..], " + ");
      var s := parts[0] + " + " + rest;
      assert Join(parts, " + ") == s;
      FindSeparatorAfter(parts[0], rest);
      assert s[..|parts[0]|] == parts[0];
      assert s[|parts[0]| + 3..] == rest;
      assert Split(s) == [parts[0]] + Split(rest);
      assert forall i :: 0 <= i < |parts[1..]| ==> parts[1..][i] == parts[i + 1];
      SplitJoin(parts[1..]);
      assert parts == [parts[0]] + parts[1..];
    }
  }

  function TermTexts(ts: seq<Term>): (r: seq<string>)
    ensures |r| == |ts| && forall i :: 0 <= i < |ts| ==> r[i] == TermText(ts[i])
  {
    seq(|ts|, i requires 0 <= i < |ts| => TermText(ts[i]))
  }

  /** Cutting the last separator off the accumulator leaves the term texts
      joined by `" + "`. */
  lemma {:induction false} RenderIsJoin(ts: seq<Term>)
    ensures Render(ts) == Join(TermTexts(ts), " + ")
  {
    if ts != [] {
      AccumulatedIsJoin(ts);
      var a := Accumulated(ts);
      var j := Join(TermTexts(ts), " + ");
      assert a == j + " + ";
      assert a[..|a| - 3] == j;
    }
  }

  lemma {:induction false} AccumulatedIsJoin(ts: seq<Term>)
    requires ts != []
    ensures Accumulated(ts) == Join(TermTexts(ts), " + ") + " + "
  {
    var n := |ts| - 1;
    var pre := ts[..n];
    TermTextsLast(ts);
    if n == 0 {
      assert pre == [];
    } else {
      AccumulatedIsJoin(pre);
      JoinAppend(TermTexts(pre), " + ", TermText(ts[n]));
    }
  }

  lemma TermTextsLast(ts: seq<Term>)
    requires ts != []
    ensures TermTexts(ts) == TermTexts(ts[..|ts| - 1]) + [TermText(ts[|ts| - 1])]
  {
  }

  /** Splitting the rendered polynomial on `" + "` gives back the term texts. */
  lemma RenderSplits(ts: seq<Term>)
    requires ts != []
    ensures Split(Render(ts)) == TermTexts(ts)
  {
    RenderIsJoin(ts);
    forall i | 0 <= i < |ts| ensures '+' !in TermTexts(ts)[i] {
      NoPlusInTerm(ts[i]);
    }
    SplitJoin(TermTexts(ts));
  }

  function RawTexts(raw: seq<Monomial>): (r: seq<string>)
    ensures |r| == |raw| && forall i :: 0 <= i < |raw| ==> r[i] == RawText(raw[i])
  {
    seq(|raw|, i requires 0 <= i < |raw| => RawText(raw[i]))
  }

  /** The raw polynomial string, its terms joined by `" + "`, splits back
      into its terms, each of which names one monomial. */
  lemma RawSplits(raw: seq<Monomial>)
    requires raw != []
    ensures Split(Join(RawTexts(raw), " + ")) == RawTexts(raw)
    ensures forall i :: 0 <= i < |raw| ==> ParseMono(RawTexts(raw)[i]) == raw[i]
  {
    forall i | 0 <= i < |raw| ensures '+' !in RawTexts(raw)[i] && ParseMono(RawTexts(raw)[i]) == raw[i] {
      NoPlusInMono(raw[i]);
      RawTextRoundTrip(raw[i]);
    }
    SplitJoin(RawTexts(raw));
  }

  /** No term text contains `+`, so `" + "` separates the terms unambiguously. */
  lemma NoPlusInTerm(t: Term)
    ensures '+' !in TermText(t)
  {
    NoPlusInMono(t.mono);
    var d := NatToString(t.coef);
    assert forall i :: 0 <= i < |d| ==> IsDigit(d[i]);
  }

  lemma NoPlusInMono(m: Monomial)
    ensures '+' !in MonoText(m) && '+' !in RawText(m)
  {
    var a, b := NatToString(m.x), NatToString(m.y);
    assert forall i :: 0 <= i < |a| ==> IsDigit(a[i]);
    assert forall i :: 0 <= i < |b| ==> IsDigit(b[i]);
  }

  // ---------------------------------------------------------------------
  // Reading term texts back
  // ---------------------------------------------------------------------

  /** Reads one factor `v`, `v^n` or nothing from the front of `s`; returns
      the exponent and what is left. */
  function ReadFactor(v: char, s: string): (nat, string)
  {
    if |s| >= 1 && s[0] == v then
      if |s| >= 2 && s[1] == '^' then
        var k := LeadingDigits(s[2..]);
        (ParseNat(s[2..][..k]), s[2..][k..])
      else (1, s[1..])
    else (0, s)
  }

  /** Reads a raw or simplified monomial: an x factor, an optional space and
      a y factor. */
  function ParseMono(s: string): Monomial
  {
    var (a, r) := ReadFactor('x', s);
    var r' := if |r| >= 1 && r[0] == ' ' then r[1..] else r;
    var (b, _) := ReadFactor('y', r');
    Monomial(a, b)
  }

  /** Reads a simplified term: a coefficient and a space when the text starts
      with a digit, otherwise coefficient 1. */
  function ParseTerm(s: string): Term
  {
    if |s| >= 1 && IsDigit(s[0]) then
      var k := LeadingDigits(s);
      Term(ParseNat(s[..k]), ParseMono(if k < |s| then s[k + 1..] else []))
    else Term(1, ParseMono(s))
  }

  lemma ReadPowered(v: char, e: nat, rest: string)
    requires !IsDigit(v)
    requires rest == [] || !IsDigit(rest[0])
    ensures ReadFactor(v, [v, '^'] + NatToString(e) + rest) == (e, rest)
  {
    var s := [v, '^'] + NatToString(e) + rest;
    assert s[2..] == NatToString(e) + rest;
    ReadNumber(e, rest);
  }

  lemma ReadFactorBack(v: char, e: nat, rest: string)
    requires !IsDigit(v)
    requires rest == [] || (rest[0] != v && rest[0] != '^' && !IsDigit(rest[0]))
    ensures ReadFactor(v, Factor(v, e) + rest) == (e, rest)
  {
    if e == 0 {
      assert Factor(v, e) + rest == rest;
    } else if e == 1 {
      assert (Factor(v, e) + rest)[1..] == rest;
    } else {
      ReadPowered(v, e, rest);
    }
  }

  /** A raw term with neither 0 nor 1 among its digits has both exponents at
      least 2. */
  lemma NoLowDigits(m: Monomial)
    requires '0' !in RawText(m) && '1' !in RawText(m)
    ensures m.x >= 2 && m.y >= 2
  {
  }

  /** The raw text of a term reads back as that term, so the term dictionary
      keyed by raw text is keyed by the monomial. */
  lemma RawTextRoundTrip(m: Monomial)
    ensures ParseMono(RawText(m)) == m
  {
    var yf := ['y', '^'] + NatToString(m.y);
    var ys := [' '] + yf;
    assert RawText(m) == ['x', '^'] + NatToString(m.x) + ys;
    ReadPowered('x', m.x, ys);
    assert ys[1..] == yf == yf + [];
    ReadPowered('y', m.y, []);
  }

  lemma RawTextInjective(m: Monomial, m': Monomial)
    requires RawText(m) == RawText(m')
    ensures m == m'
  {
    RawTextRoundTrip(m);
    RawTextRoundTrip(m');
  }

  lemma MonoTextRoundTrip(m: Monomial)
    ensures ParseMono(MonoText(m)) == m
  {
    var t := RawText(m);
    var fy := Factor('y', m.y);
    ReadFactorBack('y', m.y, []);
    assert fy + [] == fy;
    if '0' in t || '1' in t {
      ReadFactorBack('x', m.x, fy);
    } else {
      NoLowDigits(m);
      var ys := " " + fy;
      assert t == ['x', '^'] + NatToString(m.x) + ys;
      ReadPowered('x', m.x, ys);
      assert ys[1..] == fy;
    }
  }

  /** Every rendered term reads back as the term it renders. */
  lemma TermTextRoundTrip(t: Term)
    ensures ParseTerm(TermText(t)) == t
  {
    MonoTextRoundTrip(t.mono);
    var mt := MonoText(t.mono);
    assert mt == [] || !IsDigit(mt[0]) by {
      if '0' in RawText(t.mono) || '1' in RawText(t.mono) {
        if t.mono.x == 0 && t.mono.y != 0 { assert mt[0] == 'y'; }
        if t.mono.x != 0 { assert mt[0] == 'x'; }
      } else {
        assert mt[0] == 'x';
      }
    }
    if t.coef != 1 {
      var rest := " " + mt;
      ReadNumber(t.coef, rest);
      var s := NatToString(t.coef) + rest;
      assert TermText(t) == s;
      assert s[LeadingDigits(s) + 1..] == mt;
    }
  }

  /** The rendered factors: exponent 0 drops the variable, exponent 1 leaves
      it bare, and a larger exponent is written after `^`. */
  lemma FactorMeaning(v: char, e: nat)
    ensures e == 0 <==> v !in Factor(v, e)
    ensures e == 1 <==> Factor(v, e) == [v]
    ensures e >= 2 ==> Factor(v, e)[..2] == [v, '^']
  {
    if e >= 2 {
      assert Factor(v, e)[1] == '^';
    }
  }

  // ---------------------------------------------------------------------
  // The term dictionary
  // ---------------------------------------------------------------------

  /** Where the term for `m` sits in `ts`, or `|ts|` when it has none. */
  function IndexOf(ts: seq<Term>, m: Monomial): (k: nat)
    ensures k <= |ts|
    ensures k < |ts| ==> ts[k].mono == m
    ensures forall j :: 0 <= j < k ==> ts[j].mono != m
  {
    if ts == [] then 0 else if ts[0].mono == m then 0 else 1 + IndexOf(ts[1..], m)
  }

  /** The coefficient of `m` in `ts`; 0 when `m` has no term. */
  function Coef(ts: seq<Term>, m: Monomial): nat
  {
    var k := IndexOf(ts, m);
    if k < |ts| then ts[k].coef else 0
  }

  predicate Distinct(ts: seq<Term>)
  {
    forall i, j :: 0 <= i < j < |ts| ==> ts[i].mono != ts[j].mono
  }

  /** One pass of the counting loop: `term_dict[term] += 1`, or a new entry
      with count 1 at the end of the dictionary. */
  function AddOccurrence(ts: seq<Term>, m: Monomial): seq<Term>
  {
    var k := IndexOf(ts, m);
    if k < |ts| then ts[k := Term(ts[k].coef + 1, m)] else ts + [Term(1, m)]
  }

  /** The term dictionary after counting every raw term. */
  function Combine(raw: seq<Monomial>): seq<Term>
  {
    if raw == [] then [] else AddOccurrence(Combine(raw[..|raw| - 1]), raw[|raw| - 1])
  }

  lemma CoefAt(ts: seq<Term>, j: nat)
    requires Distinct(ts) && j < |ts|
    ensures IndexOf(ts, ts[j].mono) == j && Coef(ts, ts[j].mono) == ts[j].coef
  {
  }

  lemma AddOccurrenceCounts(ts: seq<Term>, m: Monomial)
    requires Distinct(ts) && forall j :: 0 <= j < |ts| ==> ts[j].coef >= 1
    ensures var r := AddOccurrence(ts, m);
      && Distinct(r)
      && (forall j :: 0 <= j < |r| ==> r[j].coef >= 1)
      && forall m' :: Coef(r, m') == Coef(ts, m') + (if m' == m then 1 else 0)
  {
    var r := AddOccurrence(ts, m);
    forall m' ensures Coef(r, m') == Coef(ts, m') + (if m' == m then 1 else 0) {
      var k := IndexOf(ts, m');
      if k < |ts| {
        CoefAt(r, k);
      } else {
        if m' == m { CoefAt(r, |ts|); }
        else { assert forall j :: 0 <= j < |r| ==> r[j].mono != m'; }
      }
    }
  }

  /** Counting keeps one term per distinct raw term, and the coefficient of
      each raw term is its number of occurrences; a raw term that never
      occurs has coefficient 0, that is, no term. */
  lemma {:induction false} CombineCounts(raw: seq<Monomial>)
    ensures Distinct(Combine(raw))
    ensures forall j :: 0 <= j < |Combine(raw)| ==> Combine(raw)[j].coef >= 1
    ensures forall m :: Coef(Combine(raw), m) == multiset(raw)[m]
  {
    if raw != [] {
      var n := |raw| - 1;
      CombineCounts(raw[..n]);
      AddOccurrenceCounts(Combine(raw[..n]), raw[n]);
      assert raw == raw[..n] + [raw[n]];
      assert multiset(raw) == multiset(raw[..n]) + multiset{raw[n]};
    }
  }

  /** A monomial has a term exactly when it occurs among the raw terms. */
  lemma CombineMembers(raw: seq<Monomial>, m: Monomial)
    ensures (exists j :: 0 <= j < |Combine(raw)| && Combine(raw)[j].mono == m) <==> m in raw
  {
    var c := Combine(raw);
    if m in raw {
      TermOfMember(raw, m);
      assert c[IndexOf(c, m)].mono == m;
    }
    if exists j :: 0 <= j < |c| && c[j].mono == m {
      var j :| 0 <= j < |c| && c[j].mono == m;
      MemberOfTerm(raw, j);
    }
  }

  lemma TermOfMember(raw: seq<Monomial>, m: Monomial)
    requires m in raw
    ensures IndexOf(Combine(raw), m) < |Combine(raw)|
  {
    CombineCounts(raw);
    assert multiset(raw)[m] > 0;
  }

  lemma MemberOfTerm(raw: seq<Monomial>, j: nat)
    requires j < |Combine(raw)|
    ensures Combine(raw)[j].mono in raw
  {
    CombineCounts(raw);
    var c := Combine(raw);
    CoefAt(c, j);
    assert multiset(raw)[c[j].mono] == c[j].coef >= 1;
    assert c[j].mono in multiset(raw);
  }

  /** The sum of the coefficients. */
  function SumCoefs(ts: seq<Term>): nat
  {
    if ts == [] then 0 else SumCoefs(ts[..|ts| - 1]) + ts[|ts| - 1].coef
  }

  lemma {:induction false} SumCoefsUpdate(ts: seq<Term>, k: nat, t: Term)
    requires k < |ts|
    ensures SumCoefs(ts[k := t]) + ts[k].coef == SumCoefs(ts) + t.coef
  {
    var n := |ts| - 1;
    if k < n {
      assert ts[k := t][..n] == ts[..n][k := t];
      SumCoefsUpdate(ts[..n], k, t);
    } else {
      assert ts[k := t][..n] == ts[..n];
    }
  }

  /** Every raw term is counted once: the coefficients add up to the number
      of raw terms. */
  lemma {:induction false} CombineSum(raw: seq<Monomial>)
    ensures SumCoefs(Combine(raw)) == |raw|
  {
    if raw != [] {
      var n := |raw| - 1;
      CombineSum(raw[..n]);
      var c := Combine(raw[..n]);
      assert Combine(raw) == AddOccurrence(c, raw[n]);
      var k := IndexOf(c, raw[n]);
      if k < |c| {
        SumCoefsUpdate(c, k, Term(c[k].coef + 1, raw[n]));
      } else {
        assert (c + [Term(1, raw[n])])[..|c|] == c;
      }
    }
  }

  /** The position of the first occurrence of `m` in `raw`. */
  function FirstIndex(raw: seq<Monomial>, m: Monomial): (k: nat)
    requires m in raw
    ensures k < |raw| && raw[k] == m
    ensures forall j :: 0 <= j < k ==> raw[j] != m
  {
    if raw[0] == m then 0 else 1 + FirstIndex(raw[1..], m)
  }

  lemma FirstIndexAppend(raw: seq<Monomial>, x: Monomial, m: Monomial)
    requires m in raw
    ensures FirstIndex(raw + [x], m) == FirstIndex(raw, m)
  {
    var k, k' := FirstIndex(raw, m), FirstIndex(raw + [x], m);
    assert (raw + [x])[k] == m;
  }

  /** The dictionary keeps first-occurrence order: every term comes from a
      raw term, and of two terms the earlier one first occurred earlier. */
  lemma {:induction false} CombineOrder(raw: seq<Monomial>)
    ensures forall i :: 0 <= i < |Combine(raw)| ==> Combine(raw)[i].mono in raw
    ensures forall i, j :: 0 <= i < j < |Combine(raw)| ==>
      FirstIndex(raw, Combine(raw)[i].mono) < FirstIndex(raw, Combine(raw)[j].mono)
  {
    if raw != [] {
      var n := |raw| - 1;
      CombineOrder(raw[..n]);
      assert raw == raw[..n] + [raw[n]];
      OrderStep(raw[..n], raw[n]);
    }
  }

  /** One more raw term keeps first-occurrence order. */
  lemma OrderStep(pre: seq<Monomial>, m: Monomial)
    requires forall i :: 0 <= i < |Combine(pre)| ==> Combine(pre)[i].mono in pre
    requires forall i, j :: 0 <= i < j < |Combine(pre)| ==>
      FirstIndex(pre, Combine(pre)[i].mono) < FirstIndex(pre, Combine(pre)[j].mono)
    ensures forall i :: 0 <= i < |Combine(pre + [m])| ==> Combine(pre + [m])[i].mono in pre + [m]
    ensures forall i, j :: 0 <= i < j < |Combine(pre + [m])| ==>
      FirstIndex(pre + [m], Combine(pre + [m])[i].mono) < FirstIndex(pre + [m], Combine(pre + [m])[j].mono)
  {
    OrderKept(pre, m);
    if IndexOf(Combine(pre), m) < |Combine(pre)| {
      OrderExisting(pre, m);
    } else {
      OrderNew(pre, m);
      assert forall i :: 0 <= i < |Combine(pre)| ==> Combine(pre + [m])[i] == Combine(pre)[i];
    }
    OrderCarried(pre, pre + [m], m, Combine(pre), Combine(pre + [m]));
  }

  /** The terms already present keep their first occurrences. */
  lemma OrderKept(pre: seq<Monomial>, m: Monomial)
    requires forall i :: 0 <= i < |Combine(pre)| ==> Combine(pre)[i].mono in pre
    ensures forall i :: 0 <= i < |Combine(pre)| ==> (Combine(pre)[i].mono in pre + [m] &&
      FirstIndex(pre + [m], Combine(pre)[i].mono) == FirstIndex(pre, Combine(pre)[i].mono))
  {
    var c0 := Combine(pre);
    forall i | 0 <= i < |c0|
      ensures c0[i].mono in pre + [m]
      ensures FirstIndex(pre + [m], c0[i].mono) == FirstIndex(pre, c0[i].mono)
    {
      FirstIndexAppend(pre, m, c0[i].mono);
    }
  }

  /** A raw term already counted only bumps a coefficient, so the monomials
      and their order are unchanged. */
  lemma OrderExisting(pre: seq<Monomial>, m: Monomial)
    requires IndexOf(Combine(pre), m) < |Combine(pre)|
    ensures |Combine(pre + [m])| == |Combine(pre)|
    ensures forall i :: 0 <= i < |Combine(pre)| ==> Combine(pre + [m])[i].mono == Combine(pre)[i].mono
  {
    assert (pre + [m])[..|pre|] == pre;
    assert Combine(pre + [m]) == AddOccurrence(Combine(pre), m);
  }

  /** The order argument of OrderStep on plain sequences: `c` lists the
      monomials of `c0`, then perhaps `m`, whose first occurrence is last. */
  lemma OrderCarried(pre: seq<Monomial>, raw: seq<Monomial>, m: Monomial, c0: seq<Term>, c: seq<Term>)
    requires forall i :: 0 <= i < |c0| ==> c0[i].mono in pre
    requires forall i :: 0 <= i < |c0| ==> (c0[i].mono in raw &&
      FirstIndex(raw, c0[i].mono) == FirstIndex(pre, c0[i].mono))
    requires forall i, j :: 0 <= i < j < |c0| ==>
      FirstIndex(pre, c0[i].mono) < FirstIndex(pre, c0[j].mono)
    requires |c| == |c0| || |c| == |c0| + 1
    requires forall i :: 0 <= i < |c0| ==> c[i].mono == c0[i].mono
    requires |c| == |c0| + 1 ==> c[|c0|].mono == m && m in raw && FirstIndex(raw, m) == |pre|
    ensures forall i :: 0 <= i < |c| ==> c[i].mono in raw
    ensures forall i, j :: 0 <= i < j < |c| ==>
      FirstIndex(raw, c[i].mono) < FirstIndex(raw, c[j].mono)
  {
    forall i | 0 <= i < |c| ensures c[i].mono in raw {
      if i < |c0| {
        assert c[i].mono == c0[i].mono;
      } else {
        assert i == |c0| && |c| == |c0| + 1;
        assert c[i].mono == m;
      }
    }
    forall i, j | 0 <= i < j < |c|
      ensures FirstIndex(raw, c[i].mono) < FirstIndex(raw, c[j].mono)
    {
      var x := c0[i].mono;
      assert c[i].mono == x;
      if j < |c0| {
        assert c[j].mono == c0[j].mono;
      } else {
        assert j == |c0| && |c| == |c0| + 1;
        assert c[j].mono == m;
        assert FirstIndex(raw, c[j].mono) == |pre|;
        assert FirstIndex(raw, x) == FirstIndex(pre, x);
        assert FirstIndex(pre, x) < |pre|;
      }
    }
  }

  /** A raw term met for the first time is appended and first occurs last. */
  lemma OrderNew(pre: seq<Monomial>, m: Monomial)
    requires IndexOf(Combine(pre), m) == |Combine(pre)|
    requires forall i :: 0 <= i < |Combine(pre)| ==> Combine(pre)[i].mono in pre
    ensures Combine(pre + [m]) == Combine(pre) + [Term(1, m)]
    ensures m in pre + [m] && FirstIndex(pre + [m], m) == |pre|
    ensures forall i :: 0 <= i < |Combine(pre)| ==> FirstIndex(pre, Combine(pre)[i].mono) < |pre|
  {
    assert (pre + [m])[..|pre|] == pre;
    if m in pre {
      CombineMembers(pre, m);
    }
  }

  // ---------------------------------------------------------------------
  // Values
  // ---------------------------------------------------------------------

  /** `b ** e` on integers; `0 ** 0` is 1, as in Python. */
  function Pow(b: int, e: nat): int
  {
    if e == 0 then 1 else b * Pow(b, e - 1)
  }

  function MonoValue(m: Monomial, x: int, y: int): int
  {
    Pow(x, m.x) * Pow(y, m.y)
  }

  /** The value of a simplified polynomial: the sum of its terms' values. */
  function TermsValue(ts: seq<Term>, x: int, y: int): int
  {
    if ts == [] then 0
    else TermsValue(ts[..|ts| - 1], x, y) + ts[|ts| - 1].coef * MonoValue(ts[|ts| - 1].mono, x, y)
  }

  /** The value of a raw polynomial: the sum of its raw terms' values. */
  function RawValue(raw: seq<Monomial>, x: int, y: int): int
  {
    if raw == [] then 0 else RawValue(raw[..|raw| - 1], x, y) + MonoValue(raw[|raw| - 1], x, y)
  }

  lemma {:induction false} TermsValueUpdate(ts: seq<Term>, k: nat, t: Term, x: int, y: int)
    requires k < |ts|
    ensures TermsValue(ts[k := t], x, y) + ts[k].coef * MonoValue(ts[k].mono, x, y)
         == TermsValue(ts, x, y) + t.coef * MonoValue(t.mono, x, y)
  {
    var n := |ts| - 1;
    if k < n {
      assert ts[k := t][..n] == ts[..n][k := t];
      TermsValueUpdate(ts[..n], k, t, x, y);
    } else {
      assert ts[k := t][..n] == ts[..n];
    }
  }

  lemma AddOccurrenceValue(ts: seq<Term>, m: Monomial, x: int, y: int)
    ensures TermsValue(AddOccurrence(ts, m), x, y) == TermsValue(ts, x, y) + MonoValue(m, x, y)
  {
    var k := IndexOf(ts, m);
    if k < |ts| {
      BumpValue(ts, k, x, y);
    } else {
      assert (ts + [Term(1, m)])[..|ts|] == ts;
    }
  }

  /** One more occurrence of the monomial of the term at position `k`. */
  lemma BumpValue(ts: seq<Term>, k: nat, x: int, y: int)
    requires k < |ts|
    ensures TermsValue(ts[k := Term(ts[k].coef + 1, ts[k].mono)], x, y)
         == TermsValue(ts, x, y) + MonoValue(ts[k].mono, x, y)
  {
    var c, v := ts[k].coef, MonoValue(ts[k].mono, x, y);
    TermsValueUpdate(ts, k, Term(c + 1, ts[k].mono), x, y);
    MulSucc(c, v);
  }

  lemma MulSucc(c: int, v: int)
    ensures (c + 1) * v == c * v + v
  {
  }

  /** Combining like terms does not change the value of the polynomial. */
  lemma {:induction false} CombineValue(raw: seq<Monomial>, x: int, y: int)
    ensures TermsValue(Combine(raw), x, y) == RawValue(raw, x, y)
  {
    if raw != [] {
      var n := |raw| - 1;
      CombineValue(raw[..n], x, y);
      assert Combine(raw) == AddOccurrence(Combine(raw[..n]), raw[n]);
      AddOccurrenceValue(Combine(raw[..n]), raw[n], x, y);
    }
  }

  // ---------------------------------------------------------------------
  // _simplify_polynomial
  // ---------------------------------------------------------------------

  /** The dictionary `term_dict`, held as its keys in insertion order and
      the map from key to count, describes the terms `ts`. */
  predicate Describes(keys: seq<Monomial>, counts: map<Monomial, nat>, ts: seq<Term>)
  {
    && |keys| == |ts|
    && (forall j :: 0 <= j < |keys| ==> keys[j] in counts && ts[j] == Term(counts[keys[j]], keys[j]))
    && (forall m :: m in counts ==> m in keys)
  }

  /** `_simplify_polynomial`: count each raw term in an insertion-ordered
      dictionary, then render the entries. */
  method SimplifyPolynomial(raw: seq<Monomial>) returns (polynomial: string)
    ensures polynomial == Render(Combine(raw))
  {
    var keys, counts := CountTerms(raw);
    polynomial := RenderTerms(keys, counts, Combine(raw));
  }

  /** The counting loop of `_simplify_polynomial`, filling `term_dict`. */
  method CountTerms(raw: seq<Monomial>) returns (keys: seq<Monomial>, counts: map<Monomial, nat>)
    ensures Describes(keys, counts, Combine(raw))
  {
    keys, counts := [], map[];
    for i := 0 to |raw|
      invariant Describes(keys, counts, Combine(raw[..i]))
    {
      var m := raw[i];
      assert raw[..i + 1][..i] == raw[..i];
      CombineCounts(raw[..i]);
      if m in counts {
        CountExisting(keys, counts, Combine(raw[..i]), m);
        counts := counts[m := counts[m] + 1];
      } else {
        CountNew(keys, counts, Combine(raw[..i]), m);
        counts := counts[m := 1];
        keys := keys + [m];
      }
    }
    assert raw[..|raw|] == raw;
  }

  /** The rendering loop of `_simplify_polynomial` over the entries of
      `term_dict`, then `polynomial[:-3]`. */
  method RenderTerms(keys: seq<Monomial>, counts: map<Monomial, nat>, ghost ts: seq<Term>)
    returns (polynomial: string)
    requires Describes(keys, counts, ts)
    ensures polynomial == Render(ts)
  {
    polynomial := "";
    for j := 0 to |keys|
      invariant polynomial == Accumulated(ts[..j])
    {
      var m := keys[j];
      var v := counts[m];
      var term := SimplifyTerm(m);
      AccumulatedStep(ts, j);
      if v == 1 {
        polynomial := polynomial + (term + " + ");
      } else {
        polynomial := polynomial + (NatToString(v) + " " + term + " + ");
      }
    }
    assert ts[..|keys|] == ts;
    polynomial := if |polynomial| >= 3 then polynomial[..|polynomial| - 3] else "";
  }

  /** The exponent handling of `_simplify_polynomial` for one dictionary key:
      when a 0 or a 1 occurs in the term, each half loses its `^0` (and the
      variable with it) or its `^1`, and the halves are joined. */
  method SimplifyTerm(m: Monomial) returns (term: string)
    ensures term == MonoText(m)
    ensures ParseMono(term) == m
    ensures ('x' in term <==> m.x != 0) && ('y' in term <==> m.y != 0)
    ensures '^' in term <==> m.x >= 2 || m.y >= 2
  {
    term := RawText(m);
    if '0' in term || '1' in term {
      term := Factor('x', m.x) + Factor('y', m.y);
    }
    MonoTextRoundTrip(m);
    MonoTextShape(m);
  }

  /** The simplified text of a monomial names a variable exactly when its
      exponent is not 0, and writes a `^` exactly when some exponent is 2
      or more: `^0` and `^1` never survive. */
  lemma MonoTextShape(m: Monomial)
    ensures var t := MonoText(m);
      && ('x' in t <==> m.x != 0) && ('y' in t <==> m.y != 0)
      && ('^' in t <==> m.x >= 2 || m.y >= 2)
  {
    var sx, sy := NatToString(m.x), NatToString(m.y);
    NoLetterInDigits(sx);
    NoLetterInDigits(sy);
    var t := RawText(m);
    if '0' in t || '1' in t {
      FactorShape('x', m.x);
      FactorShape('y', m.y);
    } else {
      assert t == "x^" + sx + " y^" + sy;
      assert t[0] == 'x' && t[1] == '^';
      assert t[|sx| + 3] == 'y';
    }
  }

  /** A half of a simplified term holds its own variable exactly when the
      exponent is not 0, never the other variable, and a `^` exactly when
      the exponent is 2 or more. */
  lemma FactorShape(v: char, e: nat)
    requires v == 'x' || v == 'y'
    ensures v in Factor(v, e) <==> e != 0
    ensures forall c :: c in Factor(v, e) && c != v && c != '^' ==> IsDigit(c)
    ensures '^' in Factor(v, e) <==> e >= 2
  {
    if e >= 2 {
      var f := Factor(v, e);
      assert f[1] == '^';
      NoLetterInDigits(NatToString(e));
    }
  }

  lemma NoLetterInDigits(s: string)
    requires AllDigits(s)
    ensures 'x' !in s && 'y' !in s && '^' !in s
  {
  }

  /** One pass of the rendering loop appends the next term and `" + "`. */
  lemma AccumulatedStep(ts: seq<Term>, j: nat)
    requires j < |ts|
    ensures Accumulated(ts[..j + 1]) == Accumulated(ts[..j]) + (TermText(ts[j]) + " + ")
  {
    assert ts[..j + 1][..j] == ts[..j];
    assert ts[..j + 1][j] == ts[j];
  }

  /** `term_dict[term] += 1` for a term already in the dictionary. */
  lemma CountExisting(keys: seq<Monomial>, counts: map<Monomial, nat>, c: seq<Term>, m: Monomial)
    requires Describes(keys, counts, c) && Distinct(c) && m in counts
    ensures Describes(keys, counts[m := counts[m] + 1], AddOccurrence(c, m))
  {
    var j :| 0 <= j < |keys| && keys[j] == m;
    assert c[j] == Term(counts[m], m);
    AddOccurrenceAt(c, j);
    var r, counts' := AddOccurrence(c, m), counts[m := counts[m] + 1];
    forall q | 0 <= q < |keys|
      ensures keys[q] in counts' && r[q] == Term(counts'[keys[q]], keys[q])
    {
      if q != j {
        assert c[q].mono == keys[q] != m;
      }
    }
    assert counts'.Keys == counts.Keys;
  }

  /** Counting a monomial that already has a term bumps that term. */
  lemma AddOccurrenceAt(c: seq<Term>, j: nat)
    requires Distinct(c) && j < |c|
    ensures AddOccurrence(c, c[j].mono) == c[j := Term(c[j].coef + 1, c[j].mono)]
  {
    CoefAt(c, j);
  }

  /** `term_dict[term] = 1` for a term not yet in the dictionary. */
  lemma CountNew(keys: seq<Monomial>, counts: map<Monomial, nat>, c: seq<Term>, m: Monomial)
    requires Describes(keys, counts, c) && m !in counts
    ensures Describes(keys + [m], counts[m := 1], AddOccurrence(c, m))
  {
    assert forall j :: 0 <= j < |c| ==> c[j].mono != m;
    assert AddOccurrence(c, m) == c + [Term(1, m)];
  }

  // ---------------------------------------------------------------------
  // The cycle on five vertices
  // ---------------------------------------------------------------------

  /** The raw terms the recursion produces for the cycle on five vertices
      (`Polynomial.CycleFiveRaw` derives them), combined and rendered:
      `x^4 + x^3 + x^2 + x + y`, worth 30 at (2, 0). */
  lemma CycleFiveRendering()
    ensures var raw := [Monomial(4, 0), Monomial(3, 0), Monomial(2, 0), Monomial(1, 0), Monomial(0, 1)];
      && Render(Combine(raw)) == "x^4 + x^3 + x^2 + x + y"
      && TermsValue(Combine(raw), 2, 0) == 30
  {
    var raw := [Monomial(4, 0), Monomial(3, 0), Monomial(2, 0), Monomial(1, 0), Monomial(0, 1)];
    CombineDistinctRaw(raw);
    assert Combine(raw) == CycleFiveTerms();
    CycleFiveText();
    CycleFiveValue();
  }

  function CycleFiveTerms(): seq<Term>
  {
    [Term(1, Monomial(4, 0)), Term(1, Monomial(3, 0)), Term(1, Monomial(2, 0)),
     Term(1, Monomial(1, 0)), Term(1, Monomial(0, 1))]
  }

  lemma CycleFiveText()
    ensures Render(CycleFiveTerms()) == "x^4 + x^3 + x^2 + x + y"
  {
    RenderIsJoin(CycleFiveTerms());
    CycleFiveTexts(CycleFiveTerms());
    CycleFiveJoin(["x^4", "x^3", "x^2", "x", "y"]);
  }

  lemma CycleFiveJoin(parts: seq<string>)
    requires parts == ["x^4", "x^3", "x^2", "x", "y"]
    ensures Join(parts, " + ") == "x^4 + x^3 + x^2 + x + y"
  {
    assert Join(parts[3..], " + ") == "x + y" by {
      assert parts[3..][1..] == ["y"];
    }
    assert Join(parts[1..], " + ") == "x^3 + x^2 + x + y" by {
      assert parts[1..][1..] == parts[2..];
      assert parts[2..][1..] == parts[3..];
    }
  }

  lemma CycleFiveTexts(ts: seq<Term>)
    requires ts == CycleFiveTerms()
    ensures TermTexts(ts) == ["x^4", "x^3", "x^2", "x", "y"]
  {
    CycleFiveTermTexts();
  }

  lemma CycleFiveTermTexts()
    ensures TermText(Term(1, Monomial(4, 0))) == "x^4"
    ensures TermText(Term(1, Monomial(3, 0))) == "x^3"
    ensures TermText(Term(1, Monomial(2, 0))) == "x^2"
    ensures TermText(Term(1, Monomial(1, 0))) == "x"
    ensures TermText(Term(1, Monomial(0, 1))) == "y"
  {
    assert '0' in RawText(Monomial(4, 0));
    assert '0' in RawText(Monomial(3, 0));
    assert '0' in RawText(Monomial(2, 0));
    assert '0' in RawText(Monomial(1, 0));
    assert '0' in RawText(Monomial(0, 1));
  }

  lemma CycleFiveValue()
    ensures TermsValue(CycleFiveTerms(), 2, 0) == 30
  {
    var ts := CycleFiveTerms();
    assert ts[..1][..0] == [];
    assert ts[..2][..1] == ts[..1];
    assert ts[..3][..2] == ts[..2];
    assert ts[..4][..3] == ts[..3];
    assert ts[..5] == ts;
    assert TermsValue(ts[..1], 2, 0) == 16;
    assert TermsValue(ts[..2], 2, 0) == 24;
    assert TermsValue(ts[..3], 2, 0) == 28;
    assert TermsValue(ts[..4], 2, 0) == 30;
  }

  /** Raw terms that are pairwise distinct each get a term of their own, in
      order, with coefficient 1. */
  lemma {:induction false} CombineDistinctRaw(raw: seq<Monomial>)
    requires forall i, j :: 0 <= i < j < |raw| ==> raw[i] != raw[j]
    ensures Combine(raw) == seq(|raw|, i requires 0 <= i < |raw| => Term(1, raw[i]))
  {
    if raw != [] {
      var n := |raw| - 1;
      CombineDistinctRaw(raw[..n]);
      var c := Combine(raw[..n]);
      assert Combine(raw) == AddOccurrence(c, raw[n]);
      assert forall j :: 0 <= j < |c| ==> c[j].mono != raw[n];
      assert AddOccurrence(c, raw[n]) == c + [Term(1, raw[n])];
    }
  }
}
