/** Python's conversions between an integer and its decimal text:
    `str(n)` and `int(s)` for a `str` argument in base 10. */
module PyInt {
  import opened Wrappers

  predicate IsDigit(c: char) {
    '0' <= c <= '9'
  }

  /** The ASCII characters `int()` strips from both ends of its argument:
      space, tab, line feed, vertical tab, form feed and carriage return. */
  predicate IsSpace(c: char) {
    c == ' ' || ('\t' <= c <= '\r')
  }

  function DigitValue(c: char): nat
    requires IsDigit(c)
  {
    c as int - '0' as int
  }

  function DigitChar(d: nat): (c: char)
    requires d < 10
    ensures IsDigit(c) && DigitValue(c) == d
  {
    ('0' as int + d) as char
  }

  /** The number a run of decimal digits denotes, most significant digit first. */
  function DecimalValue(ds: string): nat
    requires forall i :: 0 <= i < |ds| ==> IsDigit(ds[i])
  {
    if ds == [] then 0 else DecimalValue(ds[..|ds| - 1]) * 10 + DigitValue(ds[|ds| - 1])
  }

  /** `str(n)` for `n >= 0`: the digits of `n` with no leading zero. */
  function ShowNat(n: nat): (s: string)
    ensures |s| > 0 && forall i :: 0 <= i < |s| ==> IsDigit(s[i])
    ensures s[0] == '0' ==> s == "0"
    ensures DecimalValue(s) == n
  {
    if n < 10 then [DigitChar(n)] else ShowNat(n / 10) + [DigitChar(n % 10)]
  }

  /** `str(n)`: a minus sign for a negative `n`, then the digits of `|n|`. */
  function Show(n: int): (s: string)
    ensures |s| > 0
    ensures forall i :: 0 <= i < |s| ==> IsDigit(s[i]) || (i == 0 && s[i] == '-')
    ensures s[0] == '-' <==> n < 0
  {
    if n < 0 then "-" + ShowNat(-n) else ShowNat(n)
  }

  /** `str(n)` holds nothing but digits and a minus sign. */
  lemma ShowHasOnly(n: int, c: char)
    requires !IsDigit(c) && c != '-'
    ensures c !in Show(n)
  {
  }

  /** How far `int()` has read its argument: still in leading whitespace,
      just past the sign, inside the digits (the last character read was a
      digit), just past an underscore between digits, or in trailing
      whitespace. */
  datatype ScanState =
    | Leading
    | AfterSign(negative: bool)
    | InDigits(negative: bool, magnitude: nat)
    | AfterUnderscore(negative: bool, magnitude: nat)
    | Trailing(value: int)

  function SignedValue(negative: bool, magnitude: nat): int {
    if negative then -(magnitude as int) else magnitude
  }

  /** One character read in state `st`; `None` where `int()` raises. */
  function Step(st: ScanState, c: char): Option<ScanState> {
    match st
    case Leading =>
      if IsSpace(c) then Some(Leading)
      else if c == '+' || c == '-' then Some(AfterSign(c == '-'))
      else if IsDigit(c) then Some(InDigits(false, DigitValue(c)))
      else None
    case AfterSign(negative) =>
      if IsDigit(c) then Some(InDigits(negative, DigitValue(c))) else None
    case InDigits(negative, magnitude) =>
      if IsDigit(c) then Some(InDigits(negative, magnitude * 10 + DigitValue(c)))
      else if c == '_' then Some(AfterUnderscore(negative, magnitude))
      else if IsSpace(c) then Some(Trailing(SignedValue(negative, magnitude)))
      else None
    case AfterUnderscore(negative, magnitude) =>
      if IsDigit(c) then Some(InDigits(negative, magnitude * 10 + DigitValue(c))) else None
    case Trailing(value) =>
      if IsSpace(c) then Some(Trailing(value)) else None
  }

  /** The value once the whole text is read: only a text that ended in its
      digits or in whitespace after them is a number. */
  function Finish(st: ScanState): Option<int> {
    match st
    case InDigits(negative, magnitude) => Some(SignedValue(negative, magnitude))
    case Trailing(value) => Some(value)
    case _ => None
  }

  /** Read the rest `s` of the text from state `st`. */
  function Scan(s: string, st: ScanState): Option<int> {
    if s == [] then Finish(st)
    else
      match Step(st, s[0])
      case None => None
      case Some(next) => Scan(s[1..], next)
  }

  /** `int(s)`: `None` where Python raises `ValueError`. Surrounding
      whitespace is ignored, one sign is allowed, the digits may have leading
      zeros and may be grouped by single underscores between digits. */
  function Parse(s: string): Option<int> {
    Scan(s, Leading)
  }

  /** The state after reading all of `s` from `st`; `None` once `int()`
      has refused. */
  function Run(s: string, st: ScanState): Option<ScanState> {
    if s == [] then Some(st)
    else
      match Step(st, s[0])
      case None => None
      case Some(next) => Run(s[1..], next)
  }

  /** Reading `a + b` is reading `a`, then `b` from where `a` left off. */
  lemma {:induction false} ScanAppend(a: string, b: string, st: ScanState)
    ensures Scan(a + b, st) == (match Run(a, st) case None => None case Some(mid) => Scan(b, mid))
    decreases |a|
  {
    if a == [] {
      assert a + b == b;
    } else {
      assert (a + b)[0] == a[0] && (a + b)[1..] == a[1..] + b;
      match Step(st, a[0])
      case None =>
      case Some(next) =>
        ScanAppend(a[1..], b, next);
    }
  }

  predicate AllSpace(w: string) {
    forall i :: 0 <= i < |w| ==> IsSpace(w[i])
  }

  /** Leading whitespace is skipped. */
  lemma {:induction false} SkipLeadingSpace(w: string, rest: string)
    requires AllSpace(w)
    ensures Scan(w + rest, Leading) == Scan(rest, Leading)
    decreases |w|
  {
    if w != [] {
      assert (w + rest)[0] == w[0] && (w + rest)[1..] == w[1..] + rest;
      SkipLeadingSpace(w[1..], rest);
    } else {
      assert w + rest == rest;
    }
  }

  /** Leading whitespace leaves the scan where it started. */
  lemma {:induction false} RunLeadingSpace(w: string)
    requires AllSpace(w)
    ensures Run(w, Leading) == Some(Leading)
    decreases |w|
  {
    if w != [] {
      RunLeadingSpace(w[1..]);
    }
  }

  /** Whitespace after the digits ends the text with their value. */
  lemma {:induction false} ScanTrailingSpace(w: string, negative: bool, magnitude: nat)
    requires AllSpace(w)
    ensures Scan(w, InDigits(negative, magnitude)) == Some(SignedValue(negative, magnitude))
  {
    if w != [] {
      ScanTrailing(w[1..], SignedValue(negative, magnitude));
    }
  }

  lemma {:induction false} ScanTrailing(w: string, value: int)
    requires AllSpace(w)
    ensures Scan(w, Trailing(value)) == Some(value)
    decreases |w|
  {
    if w != [] {
      ScanTrailing(w[1..], value);
    }
  }

  /** Reading more digits `q` after the digits `p` continues the decimal value. */
  lemma {:induction false} ScanDigits(p: string, q: string, rest: string, negative: bool)
    requires forall i :: 0 <= i < |p| ==> IsDigit(p[i])
    requires forall i :: 0 <= i < |q| ==> IsDigit(q[i])
    ensures forall i :: 0 <= i < |p + q| ==> IsDigit((p + q)[i])
    ensures Scan(q + rest, InDigits(negative, DecimalValue(p)))
            == Scan(rest, InDigits(negative, DecimalValue(p + q)))
    decreases |q|
  {
    if q == [] {
      assert p + q == p && q + rest == rest;
    } else {
      var p' := p + [q[0]];
      assert p'[..|p|] == p;
      assert p' + q[1..] == p + q;
      assert (q + rest)[0] == q[0] && (q + rest)[1..] == q[1..] + rest;
      ScanDigits(p', q[1..], rest, negative);
    }
  }

  /** `int()` of a run of digits with an optional sign, surrounded by any
      whitespace, is the run's decimal value (leading zeros allowed), negated
      after a minus sign. */
  lemma ParseDecimal(w1: string, sign: string, d: string, w2: string)
    requires AllSpace(w1) && AllSpace(w2)
    requires sign == "" || sign == "+" || sign == "-"
    requires |d| > 0 && forall i :: 0 <= i < |d| ==> IsDigit(d[i])
    ensures Parse(w1 + (sign + (d + w2))) == Some(SignedValue(sign == "-", DecimalValue(d)))
  {
    SkipLeadingSpace(w1, sign + (d + w2));
    ScanSigned(sign, d, w2);
  }

  /** A sign, digits and whitespace, read from the start. */
  lemma ScanSigned(sign: string, d: string, w: string)
    requires AllSpace(w)
    requires sign == "" || sign == "+" || sign == "-"
    requires |d| > 0 && forall i :: 0 <= i < |d| ==> IsDigit(d[i])
    ensures Scan(sign + (d + w), Leading) == Some(SignedValue(sign == "-", DecimalValue(d)))
  {
    var negative := sign == "-";
    ScanAppend(sign, d + w, Leading);
    if sign == "" {
      assert Run(sign, Leading) == Some(Leading);
    } else {
      assert Run(sign, Leading) == Some(AfterSign(negative));
    }
    ScanUnsigned(d, w, negative);
  }

  /** Digits and whitespace, read from the start or just after a sign. */
  lemma ScanUnsigned(d: string, w: string, negative: bool)
    requires AllSpace(w)
    requires |d| > 0 && forall i :: 0 <= i < |d| ==> IsDigit(d[i])
    ensures !negative ==> Scan(d + w, Leading) == Some(SignedValue(negative, DecimalValue(d)))
    ensures Scan(d + w, AfterSign(negative)) == Some(SignedValue(negative, DecimalValue(d)))
  {
    var first := [d[0]];
    assert DecimalValue(first) == DigitValue(d[0]) by {
      assert first[..0] == [];
    }
    assert (d + w)[0] == d[0] && (d + w)[1..] == d[1..] + w;
    ScanDigits(first, d[1..], w, negative);
    assert first + d[1..] == d;
    ScanTrailingSpace(w, negative, DecimalValue(d));
  }

  /** `int(str(n)) == n` for every integer. */
  lemma ParseShow(n: int)
    ensures Parse(Show(n)) == Some(n)
  {
    var ds := ShowNat(if n < 0 then -n else n);
    var sign := if n < 0 then "-" else "";
    assert Show(n) == "" + (sign + (ds + ""));
    ParseDecimal("", sign, ds, "");
  }

  /** An underscore between two digits is ignored, wherever it stands. */
  lemma ParseIgnoresUnderscore(pre: string, a: char, b: char, post: string)
    requires IsDigit(a) && IsDigit(b)
    ensures Parse(pre + [a, '_', b] + post) == Parse(pre + [a, b] + post)
  {
    var with, without := [a, '_', b] + post, [a, b] + post;
    assert pre + [a, '_', b] + post == pre + with;
    assert pre + [a, b] + post == pre + without;
    ScanAppend(pre, with, Leading);
    ScanAppend(pre, without, Leading);
    match Run(pre, Leading)
    case None =>
    case Some(mid) =>
      assert with[0] == a && with[1..] == ['_', b] + post;
      assert without[0] == a && without[1..] == [b] + post;
      match Step(mid, a)
      case None =>
      case Some(next) =>
        assert Scan(with, mid) == Scan(['_', b] + post, next);
        assert Scan(without, mid) == Scan([b] + post, next);
        assert (['_', b] + post)[0] == '_' && (['_', b] + post)[1..] == [b] + post;
        assert ([b] + post)[0] == b && ([b] + post)[1..] == post;
        assert Scan(['_', b] + post, next) == Scan([b] + post, AfterUnderscore(next.negative, next.magnitude));
  }

  /** After a digit the scan is in the digits, after an underscore, or in
      trailing whitespace. */
  predicate PastDigit(st: ScanState) {
    st.InDigits? || st.AfterUnderscore? || st.Trailing?
  }

  lemma {:induction false} RunStaysPastDigit(s: string, st: ScanState)
    requires PastDigit(st)
    ensures Run(s, st).None? || PastDigit(Run(s, st).value)
    decreases |s|
  {
    if s != [] {
      match Step(st, s[0])
      case None =>
      case Some(next) =>
        RunStaysPastDigit(s[1..], next);
    }
  }

  /** Once a text with a digit in it is read, the scan is past a digit. */
  lemma {:induction false} RunPastDigit(s: string, st: ScanState, k: nat)
    requires k < |s| && IsDigit(s[k])
    ensures Run(s, st).None? || PastDigit(Run(s, st).value)
    decreases |s|
  {
    match Step(st, s[0])
    case None =>
    case Some(next) =>
      if k == 0 {
        RunStaysPastDigit(s[1..], next);
      } else {
        assert s[1..][k - 1] == s[k];
        RunPastDigit(s[1..], next, k - 1);
      }
  }

  /** The scan is in the digits only right after reading a digit. */
  lemma {:induction false} RunIntoDigits(s: string, st: ScanState)
    ensures Run(s, st).Some? && Run(s, st).value.InDigits? ==>
      (s == [] && st.InDigits?) || (s != [] && IsDigit(s[|s| - 1]))
    decreases |s|
  {
    if s != [] {
      match Step(st, s[0])
      case None =>
      case Some(next) =>
        RunIntoDigits(s[1..], next);
        if |s| > 1 {
          assert s[1..][|s| - 2] == s[|s| - 1];
        }
    }
  }

  /** Trailing whitespace allows no digit after it. */
  lemma {:induction false} ScanTrailingDigit(s: string, value: int, k: nat)
    requires k < |s| && IsDigit(s[k])
    ensures Scan(s, Trailing(value)) == None
    decreases |s|
  {
    if k > 0 && IsSpace(s[0]) {
      assert s[1..][k - 1] == s[k];
      ScanTrailingDigit(s[1..], value, k - 1);
    }
  }

  /** Whitespace between two digits refuses the text (`int("1 2")`). */
  lemma ParseRejectsSpaceBetweenDigits(pre: string, c: char, post: string, i: nat, j: nat)
    requires i < |pre| && IsDigit(pre[i])
    requires IsSpace(c)
    requires j < |post| && IsDigit(post[j])
    ensures Parse(pre + [c] + post) == None
  {
    assert pre + [c] + post == pre + ([c] + post);
    ScanAppend(pre, [c] + post, Leading);
    RunPastDigit(pre, Leading, i);
    match Run(pre, Leading)
    case None =>
    case Some(mid) =>
      assert ([c] + post)[0] == c && ([c] + post)[1..] == post;
      match Step(mid, c)
      case None =>
      case Some(next) =>
        ScanTrailingDigit(post, next.value, j);
  }

  /** An underscore not followed by a digit refuses the text (`int("1_")`,
      `int("1__0")`). */
  lemma ParseRejectsUnderscoreNotBeforeDigit(pre: string, post: string)
    requires post == [] || !IsDigit(post[0])
    ensures Parse(pre + "_" + post) == None
  {
    assert pre + "_" + post == pre + ("_" + post);
    ScanAppend(pre, "_" + post, Leading);
    assert ("_" + post)[0] == '_' && ("_" + post)[1..] == post;
  }

  /** An underscore not preceded by a digit refuses the text (`int("_1")`,
      `int("-_1")`). */
  lemma ParseRejectsUnderscoreNotAfterDigit(pre: string, post: string)
    requires pre == [] || !IsDigit(pre[|pre| - 1])
    ensures Parse(pre + "_" + post) == None
  {
    assert pre + "_" + post == pre + ("_" + post);
    ScanAppend(pre, "_" + post, Leading);
    RunIntoDigits(pre, Leading);
    assert ("_" + post)[0] == '_' && ("_" + post)[1..] == post;
  }

  /** A sign not followed by a digit refuses the text (`int("- 1")`,
      `int("+-1")`, `int("1+")`). */
  lemma ParseRejectsDetachedSign(pre: string, sign: char, post: string)
    requires sign == '+' || sign == '-'
    requires post == [] || !IsDigit(post[0])
    ensures Parse(pre + [sign] + post) == None
  {
    assert pre + [sign] + post == pre + ([sign] + post);
    ScanAppend(pre, [sign] + post, Leading);
    assert ([sign] + post)[0] == sign && ([sign] + post)[1..] == post;
  }

  /** Distinct integers have distinct decimal texts. */
  lemma ShowInjective(a: int, b: int)
    ensures Show(a) == Show(b) ==> a == b
  {
    ParseShow(a);
    ParseShow(b);
  }

  /** A text with no decimal digit in it is not an integer (`int("")`,
      `int("abc")`, `int(" - ")` all raise). */
  lemma ParseNeedsDigit(s: string)
    requires forall i :: 0 <= i < |s| ==> !IsDigit(s[i])
    ensures Parse(s) == None
  {
    ScanWithoutDigits(s, Leading);
  }

  /** Before the first digit, a text without digits never becomes a number. */
  lemma {:induction false} ScanWithoutDigits(s: string, st: ScanState)
    requires st.Leading? || st.AfterSign?
    requires forall i :: 0 <= i < |s| ==> !IsDigit(s[i])
    ensures Scan(s, st) == None
    decreases |s|
  {
    if s != [] {
      match Step(st, s[0])
      case None =>
      case Some(next) =>
        ScanWithoutDigits(s[1..], next);
    }
  }
}
