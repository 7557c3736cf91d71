/** The float adapter of both serializers. Without `JSON_PRESERVE_ZERO_FRACTION`,
    `json_encode` writes a whole-number float such as `17.0` as `17`, which reads
    back as an integer. The serializers therefore replace such a float by the
    string `JsonSerializerFloatAdapter(17.0)` before encoding, and
    `processEncodedValue` strips the quotes and the wrapper from the JSON text
    afterwards, leaving the number `17.0`.

    A float is represented by its PHP string form `(string)$value`. */
module FloatAdapter {
  import opened Wrappers
  import opened ByteStrings
  import opened Values

  const Minus: byte := 45
  const Plus: byte := 43
  const Dot: byte := 46
  const Zero: byte := 48
  const Quote: byte := 34
  const Newline: byte := 10
  const LeftParen: byte := 40
  const RightParen: byte := 41
  const ExponentMark: byte := 69

  /** `JsonSerializerFloatAdapter`, byte by byte; see `AdapterSpelling`. */
  const AdapterName: Bytes := [74, 115, 111, 110, 83, 101, 114, 105, 97, 108, 105, 122, 101,
                               114, 70, 108, 111, 97, 116, 65, 100, 97, 112, 116, 101, 114]

  /** The text the pattern `/"JsonSerializerFloatAdapter\((.*?)\)"/` starts with. */
  const Open: Bytes := [Quote] + AdapterName + [LeftParen]

  // ---------------------------------------------------------------------
  // The string form of a finite float

  /** `(string)$f` for a finite float: an optional sign, the integral digits, an
      optional fraction, and an exponent, which PHP only writes together with a
      fraction (`1.0E+25`). */
  datatype FloatText = FloatText(negative: bool, whole: Bytes, fraction: Option<Bytes>, exponent: Option<(bool, Bytes)>)

  predicate ValidFloatText(f: FloatText) {
    && |f.whole| > 0 && AllDigits(f.whole)
    && (f.fraction.Some? ==> |f.fraction.value| > 0 && AllDigits(f.fraction.value))
    && (f.exponent.Some? ==> f.fraction.Some? && |f.exponent.value.1| > 0 && AllDigits(f.exponent.value.1))
  }

  function Render(f: FloatText): Bytes {
    (if f.negative then [Minus] else [])
    + f.whole
    + (match f.fraction case Some(d) => [Dot] + d case None => [])
    + (match f.exponent case Some((up, d)) => [ExponentMark] + [if up then Plus else Minus] + d case None => [])
  }

  /** A JSON number with neither fraction nor exponent: `json_decode` reads it
      as an integer. */
  predicate IsIntegerNumeral(t: Bytes) {
    if |t| > 0 && t[0] == Minus then |t| > 1 && AllDigits(t[1..]) else |t| > 0 && AllDigits(t)
  }

  // ---------------------------------------------------------------------
  // The three guards

  /** `ctype_digit((string)$value)`, the guard of the main serializer as written. */
  predicate CtypeDigit(t: Bytes) {
    |t| > 0 && AllDigits(t)
  }

  /** `strpos((string)$value, '.') === false`, the guard of the older serializer. */
  predicate HasNoDot(t: Bytes) {
    Dot !in t
  }

  /** The float is a whole number: the guard the main serializer evidently intends. */
  predicate IsWhole(t: Bytes) {
    IsIntegerNumeral(t)
  }

  /** `JsonSerializerFloatAdapter(<t>.0)`. */
  function Wrap(t: Bytes): Bytes {
    AdapterName + [LeftParen] + t + [Dot, Zero] + [RightParen]
  }

  /** The value the main serializer emits for a float, with the corrected guard:
      every whole float is wrapped, negative ones included. */
  function AdaptFloat(t: Bytes, preserveZeroFraction: bool): (r: Value)
    ensures r == Float(t) || r == Str(Wrap(t))
    ensures r.Str? <==> !preserveZeroFraction && IsIntegerNumeral(t)
    ensures forall f | ValidFloatText(f) && Render(f) == t :: r.Str? <==> !preserveZeroFraction && f.fraction.None?
  {
    RenderShapes(t);
    if !preserveZeroFraction && IsWhole(t) then Str(Wrap(t)) else Float(t)
  }

  /** The value the main serializer emits for a float, as written: only the
      non-negative whole floats are wrapped. */
  function AdaptFloatAsWritten(t: Bytes, preserveZeroFraction: bool): (r: Value)
    ensures r == Float(t) || r == Str(Wrap(t))
    ensures r.Str? <==> !preserveZeroFraction && |t| > 0 && AllDigits(t)
    ensures forall f | ValidFloatText(f) && Render(f) == t :: r.Str? <==> !preserveZeroFraction && !f.negative && f.fraction.None?
  {
    RenderShapes(t);
    if !preserveZeroFraction && CtypeDigit(t) then Str(Wrap(t)) else Float(t)
  }

  /** `serializeScalar` of the older serializer on a float: every whole float
      is wrapped. */
  function AdaptFloatUtil(t: Bytes, preserveZeroFraction: bool): (r: Value)
    ensures r == Float(t) || r == Str(Wrap(t))
    ensures r.Str? <==> !preserveZeroFraction && Dot !in t
    ensures forall f | ValidFloatText(f) && Render(f) == t :: r.Str? <==> !preserveZeroFraction && f.fraction.None?
  {
    RenderShapes(t);
    if !preserveZeroFraction && HasNoDot(t) then Str(Wrap(t)) else Float(t)
  }

  /** The number text a float ends up as in the final JSON: the wrapped text with
      its `.0` once the wrapper is stripped, the plain text otherwise. */
  function FinalNumber(adapted: Value): Bytes
    requires adapted.Float? || adapted.Str?
  {
    match adapted
    case Str(w) => if |w| >= |AdapterName| + 4 then w[|AdapterName| + 1..|w| - 1] else w
    case Float(t) => t
  }

  // ---------------------------------------------------------------------
  // `processEncodedValue`: the text rewrite

  /** The lazy group `(.*?)\)"` from position `i`: the first `)"` before any
      line break. */
  function FindClose(t: Bytes, i: nat): (r: Option<nat>)
    requires i <= |t|
    ensures r.Some? ==> i <= r.value && r.value + 1 < |t| && t[r.value] == RightParen && t[r.value + 1] == Quote
    ensures r.Some? ==> forall m | i <= m < r.value :: t[m] != Newline && !(t[m] == RightParen && t[m + 1] == Quote)
    decreases |t| - i
  {
    if i + 1 < |t| && t[i] == RightParen && t[i + 1] == Quote then Some(i)
    else if i < |t| && t[i] != Newline then FindClose(t, i + 1)
    else None
  }

  predicate StartsWithOpen(t: Bytes) {
    |Open| <= |t| && t[..|Open|] == Open
  }

  /** `preg_replace('/"JsonSerializerFloatAdapter\((.*?)\)"/', '\1', $t)`:
      scanning left to right, every match is replaced by its group. */
  function Strip(t: Bytes): (r: Bytes)
    ensures |r| <= |t|
    ensures Quote !in t ==> r == t
    decreases |t|
  {
    if |t| == 0 then []
    else if StartsWithOpen(t) then
      match FindClose(t, |Open|)
      case Some(j) => t[|Open|..j] + Strip(t[j + 2..])
      case None => [t[0]] + Strip(t[1..])
    else [t[0]] + Strip(t[1..])
  }

  // ---------------------------------------------------------------------
  // Lemmas

  lemma AdapterSpelling()
    ensures AdapterName == Ascii("JsonSerializerFloatAdapter")
  {
  }

  /** Text that does not contain a double quote passes through the rewrite
      unchanged, and does not disturb what follows it. */
  lemma {:induction false} StripPlain(a: Bytes, rest: Bytes)
    requires Quote !in a
    ensures Strip(a + rest) == a + Strip(rest)
  {
    if |a| > 0 {
      var t := a + rest;
      assert t[0] == a[0] && t[0] != Quote;
      assert Open[0] == Quote;
      assert !StartsWithOpen(t);
      assert t[1..] == a[1..] + rest;
      StripPlain(a[1..], rest);
      assert a == [a[0]] + a[1..];
    } else {
      assert a + rest == rest;
    }
  }

  /** Text in which the adapter pattern never starts is left unchanged. */
  lemma {:induction false} StripNoAdapter(t: Bytes)
    requires forall i | 0 <= i < |t| :: !StartsWithOpen(t[i..])
    ensures Strip(t) == t
  {
    if |t| > 0 {
      assert t[0..] == t;
      forall i | 0 <= i < |t[1..]| ensures !StartsWithOpen(t[1..][i..]) {
        assert t[1..][i..] == t[i + 1..];
      }
      StripNoAdapter(t[1..]);
      assert t == [t[0]] + t[1..];
    }
  }

  lemma {:induction false} FindCloseAfter(t: Bytes, i: nat, x: Bytes)
    requires i + |x| + 1 < |t|
    requires t[i..i + |x|] == x
    requires RightParen !in x && Newline !in x
    requires t[i + |x|] == RightParen && t[i + |x| + 1] == Quote
    ensures FindClose(t, i) == Some(i + |x|)
    decreases |x|
  {
    if |x| > 0 {
      assert t[i] == x[0];
      assert t[i + 1..i + 1 + |x[1..]|] == x[1..];
      FindCloseAfter(t, i + 1, x[1..]);
    }
  }

  /** A wrapped float, quoted as `json_encode` writes the string, is replaced by
      its group: the float's text followed by `.0`. */
  lemma StripWrapped(x: Bytes, rest: Bytes)
    requires RightParen !in x && Newline !in x
    ensures Strip([Quote] + Wrap(x) + [Quote] + rest) == x + [Dot, Zero] + Strip(rest)
    ensures FinalNumber(Str(Wrap(x))) == x + [Dot, Zero]
  {
    var w := Wrap(x);
    assert w[|AdapterName| + 1..|w| - 1] == x + [Dot, Zero];
    var g := x + [Dot, Zero];
    var t := [Quote] + Wrap(x) + [Quote] + rest;
    assert t == Open + g + [RightParen, Quote] + rest;
    assert RightParen !in g && Newline !in g;
    assert StartsWithOpen(t) by {
      assert t[..|Open|] == Open;
    }
    assert t[|Open|..|Open| + |g|] == g;
    FindCloseAfter(t, |Open|, g);
    assert t[|Open|..|Open| + |g|] == g;
    assert t[|Open| + |g| + 2..] == rest;
  }

  /** A float's text holds no `)` and no line break, so the rewrite can find the
      end of its wrapper. */
  lemma RenderHasNoCloser(f: FloatText)
    requires ValidFloatText(f)
    ensures RightParen !in Render(f) && Newline !in Render(f) && Quote !in Render(f)
  {
    var r := Render(f);
    forall i | 0 <= i < |r| ensures r[i] != RightParen && r[i] != Newline && r[i] != Quote {
      RenderCharacters(f, i);
    }
  }

  /** Every byte of a rendered float is a digit, a sign, the dot or the exponent mark. */
  lemma RenderCharacters(f: FloatText, i: nat)
    requires ValidFloatText(f) && i < |Render(f)|
    ensures var b := Render(f)[i]; IsDigit(b) || b == Minus || b == Plus || b == Dot || b == ExponentMark
  {
    var s := if f.negative then [Minus] else [];
    var fr := match f.fraction case Some(d) => [Dot] + d case None => [];
    var ex := match f.exponent case Some((up, d)) => [ExponentMark] + [if up then Plus else Minus] + d case None => [];
    assert Render(f) == s + f.whole + fr + ex;
    if i < |s| {
    } else if i < |s| + |f.whole| {
      assert Render(f)[i] == f.whole[i - |s|];
    } else if i < |s| + |f.whole| + |fr| {
      assert Render(f)[i] == fr[i - |s| - |f.whole|];
    } else {
      assert Render(f)[i] == ex[i - |s| - |f.whole| - |fr|];
    }
  }

  /** A rendered float is an integer numeral exactly when it has no fraction,
      and it has a dot exactly then too. */
  lemma RenderShape(f: FloatText)
    requires ValidFloatText(f)
    ensures IsIntegerNumeral(Render(f)) <==> f.fraction.None?
    ensures Dot in Render(f) <==> f.fraction.Some?
    ensures CtypeDigit(Render(f)) <==> !f.negative && f.fraction.None?
  {
    var s := if f.negative then [Minus] else [];
    var fr := match f.fraction case Some(d) => [Dot] + d case None => [];
    var ex := match f.exponent case Some((up, d)) => [ExponentMark] + [if up then Plus else Minus] + d case None => [];
    var r := Render(f);
    assert r == s + f.whole + fr + ex;
    assert Dot !in f.whole by {
      forall i | 0 <= i < |f.whole| ensures f.whole[i] != Dot { assert IsDigit(f.whole[i]); }
    }
    if f.fraction.Some? {
      var k := |s| + |f.whole|;
      assert r[k] == Dot;
      assert !AllDigits(r) by { assert !IsDigit(r[k]); }
      if f.negative {
        assert r[1..][k - 1] == Dot;
        assert !AllDigits(r[1..]) by { assert !IsDigit(r[1..][k - 1]); }
      }
    } else {
      assert ex == [];
      if f.negative {
        assert r[1..] == f.whole;
        assert !AllDigits(r) by { assert !IsDigit(r[0]); }
      } else {
        assert r == f.whole;
      }
      assert Dot !in r;
    }
  }

  /** `RenderShape` for every way of reading `t` as a float. */
  lemma RenderShapes(t: Bytes)
    ensures forall f | ValidFloatText(f) && Render(f) == t ::
      && (IsIntegerNumeral(t) <==> f.fraction.None?)
      && (Dot in t <==> f.fraction.Some?)
      && (CtypeDigit(t) <==> !f.negative && f.fraction.None?)
  {
    forall f | ValidFloatText(f) && Render(f) == t
      ensures (IsIntegerNumeral(t) <==> f.fraction.None?) && (Dot in t <==> f.fraction.Some?) && (CtypeDigit(t) <==> !f.negative && f.fraction.None?)
    {
      RenderShape(f);
    }
  }

  /** The corrected guard and the guard as written choose differently exactly on
      the negative whole floats, and only when zero fractions are not preserved. */
  lemma {:induction false} MainGuardsDiffer(t: Bytes, preserveZeroFraction: bool)
    ensures AdaptFloat(t, preserveZeroFraction) != AdaptFloatAsWritten(t, preserveZeroFraction)
      <==> !preserveZeroFraction && |t| > 1 && t[0] == Minus && AllDigits(t[1..])
  {
    if |t| > 0 && t[0] == Minus {
      assert !IsDigit(t[0]);
    }
  }

  /** The older serializer's guard agrees with the intended one on every finite float. */
  lemma UtilGuardIsWhole(f: FloatText)
    requires ValidFloatText(f)
    ensures HasNoDot(Render(f)) <==> IsWhole(Render(f))
  {
    RenderShape(f);
  }

  /** As written, the main serializer's guard misses negative whole floats:
      `(string)-17.0` is `-17`, which `ctype_digit` rejects, so the float is
      encoded bare and reads back as the integer `-17`. */
  lemma MainGuardMissesNegativeWhole()
    ensures var f := FloatText(true, [49, 55], None, None);
            && ValidFloatText(f)
            && AdaptFloatAsWritten(Render(f), false) == Float(Render(f))
            && IsIntegerNumeral(FinalNumber(AdaptFloatAsWritten(Render(f), false)))
  {
    var f := FloatText(true, [49, 55], None, None);
    RenderShape(f);
  }

  /** With the intended guard, a float never reaches the JSON text as an integer
      numeral: what remains after the rewrite is the float's own text, with `.0`
      appended exactly when it was a whole number. */
  lemma AdaptedFloatStaysFloat(f: FloatText)
    requires ValidFloatText(f)
    ensures var a := AdaptFloat(Render(f), false);
            && FinalNumber(a) == Render(if f.fraction.None? then f.(fraction := Some([Zero])) else f)
            && !IsIntegerNumeral(FinalNumber(a))
  {
    RenderShape(f);
    var a := AdaptFloat(Render(f), false);
    if f.fraction.None? {
      var g := f.(fraction := Some([Zero]));
      assert ValidFloatText(g);
      RenderShape(g);
      var w := Wrap(Render(f));
      assert w[|AdapterName| + 1..|w| - 1] == Render(f) + [Dot, Zero];
      assert Render(g) == Render(f) + [Dot, Zero];
    }
  }

  /** The same for the older serializer, whose guard needs no correction. */
  lemma UtilAdaptedFloatStaysFloat(f: FloatText)
    requires ValidFloatText(f)
    ensures !IsIntegerNumeral(FinalNumber(AdaptFloatUtil(Render(f), false)))
  {
    RenderShape(f);
    AdaptedFloatStaysFloat(f);
  }
}
