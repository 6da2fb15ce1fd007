/** `kvsprintf`: number rendering through a scratch buffer of digits, and the format interpreter,
    against a pure formatter. */
module Formatter {
  import opened Common
  import opened Arithmetic
  import opened Bits

  const INT_MIN: int := -0x8000_0000
  /** Size of the scratch buffer for digits. */
  const SCRATCH: nat := 32

  // ----------------------------------------------------------------- digits

  function DigitChar(d: nat): char
    requires d < 16
  {
    "0123456789abcdef"[d]
  }

  function DigitValue(c: char): nat {
    if '0' <= c <= '9' then (c - '0') as nat
    else if 'a' <= c <= 'f' then (c - 'a') as nat + 10
    else 0
  }

  /** The positional notation of `n`. */
  function Digits(n: nat, base: nat): (s: string)
    requires 2 <= base <= 16
    ensures |s| > 0
    decreases n
  {
    if n < base then [DigitChar(n)]
    else
      DivShrinks(n, base);
      Digits(n / base, base) + [DigitChar(n % base)]
  }

  lemma DivShrinks(n: nat, base: nat)
    requires base >= 2 && n > 0
    ensures n / base < n && n / base <= n / 2
  {
    var q, r := n / base, n % base;
    assert n == q * base + r;
    MulMonotone(2, base, q);
    assert q * base >= q * 2;
  }

  /** The number a string of digits denotes. */
  function Parse(s: string, base: nat): nat {
    if s == "" then 0 else Parse(s[..|s| - 1], base) * base + DigitValue(s[|s| - 1])
  }

  lemma DigitRoundTrip(d: nat)
    requires d < 16
    ensures DigitValue(DigitChar(d)) == d
    ensures DigitChar(d) == '0' <==> d == 0
    ensures DigitChar(d) in "0123456789abcdef"
  {
    assert DigitChar(d) == "0123456789abcdef"[d];
  }

  lemma LastDigit(n: nat, base: nat)
    requires 2 <= base <= 16 && n >= base
    ensures var q, d := n / base, n % base;
            0 < q < n && d < base && n == q * base + d && Digits(n, base) == Digits(q, base) + [DigitChar(d)]
  {
    DivShrinks(n, base);
    QuotientPositive(n, base);
    Recompose(n, base);
  }

  lemma Recompose(n: nat, base: nat)
    requires base > 0
    ensures n == n / base * base + n % base
  {
  }

  lemma {:induction false} DigitsParse(n: nat, base: nat)
    requires 2 <= base <= 16
    ensures Parse(Digits(n, base), base) == n
    decreases n
  {
    var s := Digits(n, base);
    if n < base {
      DigitRoundTrip(n);
      assert s[..|s| - 1] == "" && Parse("", base) == 0;
    } else {
      var q, d := n / base, n % base;
      LastDigit(n, base);
      DigitRoundTrip(d);
      DigitsParse(q, base);
      assert s[..|s| - 1] == Digits(q, base) && s[|s| - 1] == DigitChar(d);
    }
  }

  lemma {:induction false} DigitsInBase(n: nat, base: nat)
    requires 2 <= base <= 16
    ensures Digits(n, base)[0] == '0' <==> n == 0
    ensures forall i | 0 <= i < |Digits(n, base)| :: DigitValue(Digits(n, base)[i]) < base
    ensures forall i | 0 <= i < |Digits(n, base)| :: Digits(n, base)[i] in "0123456789abcdef"
    decreases n
  {
    if n < base {
      DigitRoundTrip(n);
    } else {
      LastDigit(n, base);
      DigitRoundTrip(n % base);
      DigitsInBase(n / base, base);
    }
  }

  /** Rendering is canonical and parses back: no leading zero, only digits of the base, and the
      value is recovered. */
  lemma DigitsCanonical(n: nat, base: nat)
    requires 2 <= base <= 16
    ensures Parse(Digits(n, base), base) == n
    ensures Digits(n, base)[0] == '0' <==> n == 0
    ensures forall i | 0 <= i < |Digits(n, base)| :: DigitValue(Digits(n, base)[i]) < base
    ensures forall i | 0 <= i < |Digits(n, base)| :: Digits(n, base)[i] in "0123456789abcdef"
  {
    DigitsParse(n, base);
    DigitsInBase(n, base);
  }

  /** A k-bit number has at most k digits in any base. */
  lemma {:induction false} DigitsBound(n: nat, base: nat, k: nat)
    requires 2 <= base <= 16 && 0 < k && n < Pow2(k)
    ensures |Digits(n, base)| <= k
  {
    if n >= base {
      DivShrinks(n, base);
      assert Pow2(k) == 2 * Pow2(k - 1);
      assert k > 1;
      DigitsBound(n / base, base, k - 1);
    }
  }

  /** In base 2 the bound is met exactly by the numbers that have their top bit set. */
  lemma {:induction false} BinaryLengthExactly(n: nat, k: nat)
    requires 0 < k
    ensures |Digits(n, 2)| > k <==> n >= Pow2(k)
  {
    assert Pow2(k) == 2 * Pow2(k - 1);
    if n >= 2 && k > 1 {
      BinaryLengthExactly(n / 2, k - 1);
    }
  }

  lemma WordBits()
    ensures Pow2(31) == 0x8000_0000 && Pow2(32) == U32
  {
    assert Pow2(8) == 0x100 && Pow2(16) == 0x1_0000 && Pow2(24) == 0x100_0000;
    assert Pow2(31) == 0x8000_0000;
  }

  /** The digits of a 32-bit word always fit the scratch buffer, and fill it exactly when the base
      is 2 and the word is at least 2^31. */
  lemma ScratchSuffices(n: nat, base: nat)
    requires 2 <= base <= 16 && n < U32
    ensures |Digits(n, base)| <= SCRATCH
    ensures |Digits(n, base)| == SCRATCH <==> base == 2 && n >= 0x8000_0000
  {
    WordBits();
    DigitsBound(n, base, 32);
    if base == 2 {
      BinaryLengthExactly(n, 31);
    } else {
      ThirdsBound(n, base);
    }
  }

  lemma ThirdsBound(n: nat, base: nat)
    requires 3 <= base <= 16 && n < U32
    ensures |Digits(n, base)| < SCRATCH
  {
    assert Pow2(29) == 0x2000_0000 by { WordBits(); }
    if n >= base {
      var q := n / base;
      DivThird(n, base);
      DivShrinks(n, base);
      if q >= base {
        DivThird(q, base);
        DivShrinks(q, base);
        DigitsBound(q / base, base, 29);
      }
    }
  }

  lemma DivThird(n: nat, base: nat)
    requires base >= 3
    ensures n / base * 3 <= n
  {
    var q := n / base;
    assert n == q * base + n % base;
    MulMonotone(3, base, q);
    assert q * base >= q * 3;
  }

  // ---------------------------------------------------------------- integers

  /** Signed decimal notation. */
  function Decimal(v: int): string {
    if v < 0 then "-" + Digits(-v, 10) else Digits(v, 10)
  }

  function ParseSigned(s: string): int {
    if s != "" && s[0] == '-' then -(Parse(s[1..], 10) as int) else Parse(s, 10)
  }

  lemma DecimalRoundTrip(v: int)
    ensures ParseSigned(Decimal(v)) == v
  {
    var n: nat := if v < 0 then -v else v;
    DigitsCanonical(n, 10);
    var s := Digits(n, 10);
    assert DigitValue(s[0]) < 10;
    assert s[0] != '-' by { FirstIsDigit(n, 10); }
    if v < 0 { assert Decimal(v)[1..] == s; }
  }

  lemma {:induction false} FirstIsDigit(n: nat, base: nat)
    requires 2 <= base <= 16
    ensures Digits(n, base)[0] != '-'
    decreases n
  {
    if n >= base {
      DivShrinks(n, base);
      FirstIsDigit(n / base, base);
    }
  }

  /** The literal of the source's special case is the notation of the number it stands for. */
  lemma IntMinNotation()
    ensures Decimal(INT_MIN) == "-2147483648"
  {
    var n :| n == 2;
    n := AppendDigit(n, 1);
    n := AppendDigit(n, 4);
    n := AppendDigit(n, 7);
    n := AppendDigit(n, 4);
    n := AppendDigit(n, 8);
    n := AppendDigit(n, 3);
    n := AppendDigit(n, 6);
    n := AppendDigit(n, 4);
    n := AppendDigit(n, 8);
    assert Decimal(INT_MIN) == "-" + Digits(n, 10);
  }

  lemma AppendDigit(n: nat, d: nat) returns (m: nat)
    requires 0 < n && d < 10
    ensures m == 10 * n + d && Digits(m, 10) == Digits(n, 10) + [DigitChar(d)]
  {
    m := 10 * n + d;
    assert m / 10 == n && m % 10 == d;
  }

  // ---------------------------------------------------------------- formats

  /** A variadic argument: a 32-bit word or a pointer to a string. */
  datatype Arg = Word(value: nat) | Text(text: string)

  function Signed(w: nat): int {
    if w < 0x8000_0000 then w else w - U32
  }

  const DIRECTIVES: string := "duxbsc"

  /** The argument is of the kind the directive takes. */
  predicate Suits(directive: char, arg: Arg) {
    if directive == 's' then arg.Text? && '\0' !in arg.text
    else arg.Word? && arg.value < U32
  }

  function Rendered(directive: char, arg: Arg): string
    requires directive in DIRECTIVES && Suits(directive, arg)
  {
    if directive == 'd' then Decimal(Signed(arg.value))
    else if directive == 'u' then Digits(arg.value, 10)
    else if directive == 'x' then Digits(arg.value, 16)
    else if directive == 'b' then Digits(arg.value, 2)
    else if directive == 's' then arg.text
    else [(arg.value % 0x100) as char]
  }

  /** What each directive makes of its argument: hexadecimal, unsigned decimal and binary digits
      that stand for the word, signed decimal digits that stand for it in two's complement, the
      string itself, and the character with the low byte as its code. */
  lemma RenderedExactly(v: nat, t: string)
    requires v < U32 && '\0' !in t
    ensures Parse(Rendered('x', Word(v)), 16) == Parse(Rendered('u', Word(v)), 10) == Parse(Rendered('b', Word(v)), 2) == v
    ensures ParseSigned(Rendered('d', Word(v))) == if v < 0x8000_0000 then v else v - 0x1_0000_0000
    ensures Rendered('s', Text(t)) == t && Rendered('c', Word(v)) == [(v % 0x100) as char]
  {
    RenderedParses('x', 16, v);
    RenderedParses('u', 10, v);
    RenderedParses('b', 2, v);
    DecimalRoundTrip(Signed(v));
  }

  lemma RenderedParses(c: char, base: nat, v: nat)
    requires v < U32 && ((c == 'x' && base == 16) || (c == 'u' && base == 10) || (c == 'b' && base == 2))
    ensures Parse(Rendered(c, Word(v)), base) == v
  {
    DigitsParse(v, base);
  }

  /** And none but 'd' writes a sign, and none of the numbers has a leading zero. */
  lemma RenderedCanonical(v: nat)
    requires v < U32
    ensures forall c | c in "xub" :: Rendered(c, Word(v))[0] != '-' && (Rendered(c, Word(v))[0] == '0' <==> v == 0)
    ensures Rendered('d', Word(v))[0] == '-' <==> v >= 0x8000_0000
  {
    forall c | c in "xub" ensures Rendered(c, Word(v))[0] != '-' && (Rendered(c, Word(v))[0] == '0' <==> v == 0) {
      var base := if c == 'x' then 16 else if c == 'u' then 10 else 2;
      FirstIsDigit(v, base);
      DigitsCanonical(v, base);
    }
    FirstIsDigit(v, 10);
  }

  /** There is a suitable argument for every directive up to the first unknown one. */
  predicate Supplied(format: string, args: seq<Arg>)
    decreases |format|
  {
    if format == "" then true
    else if format[0] != '%' then Supplied(format[1..], args)
    else if |format| == 1 || format[1] !in DIRECTIVES then true
    else args != [] && Suits(format[1], args[0]) && Supplied(format[2..], args[1..])
  }

  /** The pure formatter: the output, and whether the format was understood to its end. A percent
      sign stands only for a directive, so it cannot be doubled to print one. */
  function Format(format: string, args: seq<Arg>): (r: (string, bool))
    requires Supplied(format, args)
    decreases |format|
  {
    if format == "" then ("", true)
    else if format[0] != '%' then
      var rest := Format(format[1..], args);
      ([format[0]] + rest.0, rest.1)
    else if |format| == 1 || format[1] !in DIRECTIVES then ("", false)
    else
      var rest := Format(format[2..], args[1..]);
      (Rendered(format[1], args[0]) + rest.0, rest.1)
  }

  /** Text without percent signs stands for itself. */
  lemma {:induction false} PlainExactly(text: string, args: seq<Arg>)
    requires '%' !in text
    ensures Supplied(text, args) && Format(text, args) == (text, true)
    decreases |text|
  {
    if text != "" {
      assert text[0] in text;
      PlainExactly(text[1..], args);
      assert text == [text[0]] + text[1..];
    }
  }

  /** A directive alone yields what it makes of its argument; with any other character behind the
      percent sign, or none, formatting stops at once. */
  lemma DirectiveExactly(c: char, rest: string, arg: Arg, args: seq<Arg>)
    ensures c in DIRECTIVES <==> c in {'d', 'u', 'x', 'b', 's', 'c'}
    ensures c in DIRECTIVES && Suits(c, arg) ==>
              Supplied(['%', c], [arg]) && Format(['%', c], [arg]) == (Rendered(c, arg), true)
    ensures c !in DIRECTIVES ==>
              Supplied(['%', c] + rest, args) && Format(['%', c] + rest, args) == ("", false)
    ensures Supplied("%", args) && Format("%", args) == ("", false)
  {
    if c in DIRECTIVES && Suits(c, arg) {
      assert ['%', c][2..] == "" && [arg][1..] == [];
      assert Rendered(c, arg) + "" == Rendered(c, arg);
    }
  }

  /** So the formatted number is the number. */
  lemma FormattedNumbers(v: nat)
    requires v < U32
    ensures forall c | c in "xubd" :: Supplied(['%', c], [Word(v)]) && Format(['%', c], [Word(v)]).1
    ensures Parse(Format("%x", [Word(v)]).0, 16) == Parse(Format("%u", [Word(v)]).0, 10) == v
    ensures Parse(Format("%b", [Word(v)]).0, 2) == v
    ensures ParseSigned(Format("%d", [Word(v)]).0) == if v < 0x8000_0000 then v else v - 0x1_0000_0000
  {
    RenderedExactly(v, "");
    DirectiveExactly('x', "", Word(v), []);
    DirectiveExactly('u', "", Word(v), []);
    DirectiveExactly('b', "", Word(v), []);
    DirectiveExactly('d', "", Word(v), []);
    assert "%x" == ['%', 'x'] && "%u" == ['%', 'u'] && "%b" == ['%', 'b'] && "%d" == ['%', 'd'];
  }

  /** Every percent sign starts a known directive. */
  predicate WellFormed(format: string)
    decreases |format|
  {
    if format == "" then true
    else if format[0] != '%' then WellFormed(format[1..])
    else |format| > 1 && format[1] in DIRECTIVES && WellFormed(format[2..])
  }

  /** Rendering this argument leaves a NUL behind the text: it is the smallest integer, which is
      copied from a literal together with its terminator. */
  predicate CopiesNul(directive: char, arg: Arg)
    requires Suits(directive, arg)
  {
    directive == 'd' && Signed(arg.value) == INT_MIN
  }

  /** A NUL stands behind what has been written once this argument has been rendered, too. */
  predicate NulAfter(directive: char, arg: Arg, nul: bool)
    requires directive in DIRECTIVES && Suits(directive, arg)
  {
    CopiesNul(directive, arg) || (nul && Rendered(directive, arg) == "")
  }

  /** A NUL stands behind the output where formatting stops, given whether one stood behind the
      output before: the last thing written that was not empty left one there. */
  predicate NulBehind(format: string, args: seq<Arg>, nul: bool)
    requires Supplied(format, args)
    decreases |format|
  {
    if format == "" then nul
    else if format[0] != '%' then NulBehind(format[1..], args, false)
    else if |format| == 1 || format[1] !in DIRECTIVES then nul
    else
      NulBehind(format[2..], args[1..], NulAfter(format[1], args[0], nul))
  }

  /** Both happen: at the unknown "%%" the NUL of the smallest integer is there or none is. */
  lemma NulBehindExamples()
    ensures !WellFormed("%d%%") && NulBehind("%d%%", [Word(0x8000_0000)], false)
    ensures !WellFormed("%c%%") && !NulBehind("%c%%", [Word(0x41)], false)
  {
    assert "%d%%"[2..] == "%%" && "%c%%"[2..] == "%%";
  }

  predicate EndsWith(s: string, t: string) {
    |t| <= |s| && s[|s| - |t|..] == t
  }

  lemma EndsWithMore(s: string, r: string, t: string)
    requires EndsWith(r, t)
    ensures EndsWith(s + r, t)
  {
  }

  /** Such a NUL means that the output ends with the notation of the smallest integer. */
  lemma {:induction false} NulBehindEndsInMin(format: string, args: seq<Arg>, nul: bool)
    requires Supplied(format, args) && NulBehind(format, args, nul)
    ensures var out := Format(format, args).0;
            (out == "" && nul) || EndsWith(out, Decimal(INT_MIN))
    decreases |format|
  {
    if format != "" && format[0] != '%' {
      NulBehindEndsInMin(format[1..], args, false);
      EndsWithMore([format[0]], Format(format[1..], args).0, Decimal(INT_MIN));
    } else if |format| > 1 && format[1] in DIRECTIVES {
      var text, rest := Rendered(format[1], args[0]), Format(format[2..], args[1..]).0;
      NulBehindEndsInMin(format[2..], args[1..], CopiesNul(format[1], args[0]) || (nul && text == ""));
      if EndsWith(rest, Decimal(INT_MIN)) {
        EndsWithMore(text, rest, Decimal(INT_MIN));
      } else {
        assert text + rest == text;
      }
    }
  }

  /** How many arguments a format takes. */
  function Arity(format: string): nat
    decreases |format|
  {
    if format == "" then 0
    else if format[0] != '%' then Arity(format[1..])
    else if |format| == 1 || format[1] !in DIRECTIVES then 0
    else 1 + Arity(format[2..])
  }

  /** A format is understood to its end exactly when it is well formed. */
  lemma {:induction false} UnderstoodExactly(format: string, args: seq<Arg>)
    requires Supplied(format, args)
    ensures Format(format, args).1 <==> WellFormed(format)
    decreases |format|
  {
    if format != "" {
      if format[0] != '%' { UnderstoodExactly(format[1..], args); }
      else if |format| > 1 && format[1] in DIRECTIVES { UnderstoodExactly(format[2..], args[1..]); }
    }
  }

  /** Formatting is compositional: a well-formed format followed by another formats its own
      arguments and leaves the rest to the other. */
  lemma {:induction false} FormatConcat(f: string, g: string, a: seq<Arg>, b: seq<Arg>)
    requires WellFormed(f) && |a| == Arity(f)
    requires Supplied(f, a) && Supplied(g, b)
    ensures Composes(f, g, a, b)
    decreases |f|
  {
    if f == "" {
      assert f + g == g && a + b == b;
    } else if f[0] != '%' {
      FormatConcat(f[1..], g, a, b);
      ConcatPlain(f, g, a, b);
    } else {
      FormatConcat(f[2..], g, a[1..], b);
      ConcatDirective(f, g, a, b);
    }
  }

  /** `f + g` on `a + b` is `f` on `a` followed by `g` on `b`. */
  ghost predicate Composes(f: string, g: string, a: seq<Arg>, b: seq<Arg>) {
    && Supplied(f, a) && Supplied(g, b) && Supplied(f + g, a + b)
    && Format(f + g, a + b).0 == Format(f, a).0 + Format(g, b).0
    && Format(f + g, a + b).1 == Format(g, b).1
  }

  lemma ConcatPlain(f: string, g: string, a: seq<Arg>, b: seq<Arg>)
    requires f != "" && f[0] != '%' && Composes(f[1..], g, a, b)
    ensures Composes(f, g, a, b)
  {
    assert (f + g)[1..] == f[1..] + g;
  }

  lemma ConcatDirective(f: string, g: string, a: seq<Arg>, b: seq<Arg>)
    requires |f| > 1 && f[0] == '%' && f[1] in DIRECTIVES && a != [] && Suits(f[1], a[0])
    requires Composes(f[2..], g, a[1..], b)
    ensures Composes(f, g, a, b)
  {
    var fg, ab := f + g, a + b;
    assert fg[2..] == f[2..] + g && ab[1..] == a[1..] + b;
    DirectiveStep(f, a);
    DirectiveStep(fg, ab);
    var head, rest, tail := Rendered(f[1], a[0]), Format(f[2..], a[1..]).0, Format(g, b).0;
    assert fg[1] == f[1] && ab[0] == a[0];
    assert head + (rest + tail) == (head + rest) + tail;
  }

  lemma DirectiveStep(f: string, a: seq<Arg>)
    requires |f| > 1 && f[0] == '%' && f[1] in DIRECTIVES
    requires a != [] && Suits(f[1], a[0]) && Supplied(f[2..], a[1..])
    ensures Supplied(f, a)
    ensures Format(f, a) == (Rendered(f[1], a[0]) + Format(f[2..], a[1..]).0, Format(f[2..], a[1..]).1)
  {
  }

  /** One directive leaves a NUL behind its output exactly if it renders the smallest integer, or if
      it renders an empty string where a NUL stood; a plain character never does. */
  lemma NulBehindOne(c: char, arg: Arg, nul: bool)
    ensures c in DIRECTIVES && Suits(c, arg) ==>
              Supplied(['%', c], [arg])
              && (NulBehind(['%', c], [arg], nul)
                  <==> (c == 'd' && arg == Word(0x8000_0000)) || (nul && c == 's' && arg == Text("")))
    ensures c != '%' ==> Supplied([c], []) && !NulBehind([c], [], nul)
  {
    if c in DIRECTIVES && Suits(c, arg) {
      assert ['%', c][2..] == "" && [arg][1..] == [];
      assert NulBehind(['%', c], [arg], nul) == (CopiesNul(c, arg) || (nul && Rendered(c, arg) == ""));
    }
  }

  /** And what a format leaves behind is what its parts leave behind, one after the other. */
  lemma {:induction false} NulBehindConcat(f: string, g: string, a: seq<Arg>, b: seq<Arg>, nul: bool)
    requires WellFormed(f) && |a| == Arity(f)
    requires Supplied(f, a) && Supplied(g, b)
    ensures NulComposes(f, g, a, b, nul)
    decreases |f|
  {
    if f == "" {
      assert f + g == g && a + b == b;
    } else if f[0] != '%' {
      NulBehindConcat(f[1..], g, a, b, false);
      NulConcatPlain(f, g, a, b, nul);
    } else {
      NulBehindConcat(f[2..], g, a[1..], b, NulAfter(f[1], a[0], nul));
      NulConcatDirective(f, g, a, b, nul);
    }
  }

  ghost predicate NulComposes(f: string, g: string, a: seq<Arg>, b: seq<Arg>, nul: bool) {
    && Supplied(f, a) && Supplied(g, b) && Supplied(f + g, a + b)
    && NulBehind(f + g, a + b, nul) == NulBehind(g, b, NulBehind(f, a, nul))
  }

  lemma NulConcatPlain(f: string, g: string, a: seq<Arg>, b: seq<Arg>, nul: bool)
    requires f != "" && f[0] != '%' && NulComposes(f[1..], g, a, b, false)
    ensures NulComposes(f, g, a, b, nul)
  {
    assert (f + g)[1..] == f[1..] + g;
  }

  lemma NulConcatDirective(f: string, g: string, a: seq<Arg>, b: seq<Arg>, nul: bool)
    requires |f| > 1 && f[0] == '%' && f[1] in DIRECTIVES && a != [] && Suits(f[1], a[0])
    requires NulComposes(f[2..], g, a[1..], b, NulAfter(f[1], a[0], nul))
    ensures NulComposes(f, g, a, b, nul)
  {
    var fg, ab := f + g, a + b;
    assert fg[2..] == f[2..] + g && ab[1..] == a[1..] + b;
    assert fg[1] == f[1] && ab[0] == a[0];
    DirectiveStep(f, a);
    DirectiveStep(fg, ab);
    NulBehindStep(f, a, nul);
    NulBehindStep(fg, ab, nul);
  }

  lemma NulBehindStep(f: string, a: seq<Arg>, nul: bool)
    requires |f| > 1 && f[0] == '%' && f[1] in DIRECTIVES && Supplied(f, a)
    ensures a != [] && Suits(f[1], a[0]) && Supplied(f[2..], a[1..])
    ensures NulBehind(f, a, nul) == NulBehind(f[2..], a[1..], NulAfter(f[1], a[0], nul))
  {
  }

  // -------------------------------------------------------------- the buffer

  /** From `i` on the buffer now holds `s`, followed by a NUL if `nul`; nothing else has changed. */
  ghost predicate Wrote(was: seq<char>, now: seq<char>, i: nat, s: string, nul: bool) {
    && |now| == |was| && i + |s| < |was|
    && now[..i] == was[..i] && now[i..i + |s|] == s
    && now[i + |s|] == (if nul then '\0' else was[i + |s|])
    && forall p | i + |s| < p < |was| :: now[p] == was[p]
  }

  lemma WroteMore(a: seq<char>, b: seq<char>, c: seq<char>, i: nat, s: string, t: string, m: bool, n: bool)
    requires Wrote(a, b, i, s, m) && Wrote(b, c, i + |s|, t, n)
    ensures Wrote(a, c, i, s + t, n || (m && t == ""))
  {
    assert c[..i] == c[..i + |s|][..i] == b[..i + |s|][..i] == b[..i];
    assert c[i..i + |s|] == c[..i + |s|][i..] == b[..i + |s|][i..] == b[i..i + |s|];
    assert c[i..i + |s + t|] == c[i..i + |s|] + c[i + |s|..i + |s| + |t|];
  }

  /** The two loops common to `render_unsigned_integer`, `render_hexadecimal`, `render_binary` and
      the tail of `render_integer`: collect digits in a scratch buffer, then append them in reverse. */
  method RenderDigits(result: array<char>, i: nat, n: nat, base: nat) returns (next: nat)
    requires 2 <= base <= 16 && n < U32 && i + |Digits(n, base)| < result.Length
    modifies result
    ensures next == i + |Digits(n, base)| && Wrote(old(result[..]), result[..], i, Digits(n, base), false)
  {
    ghost var s := Digits(n, base);
    var scratch, count := CollectDigits(n, base);
    next := i;
    var j := count - 1;
    while j >= 0
      invariant -1 <= j < count == |s| && next - i == count - 1 - j
      invariant Collected(scratch[..], count, s)
      invariant forall p | i <= p < next :: result[p] == s[p - i]
      invariant forall p | 0 <= p < result.Length && !(i <= p < next) :: result[p] == old(result[p])
    {
      assert scratch[..][j] == scratch[j];
      result[next] := DigitChar(scratch[j]);
      next := next + 1;
      j := j - 1;
    }
  }

  /** The first `count` digits in the scratch buffer are the last ones of `s`, in reverse. */
  ghost predicate Collected(scratch: seq<nat>, count: nat, s: string) {
    && count <= |scratch| && count <= |s|
    && forall k | 0 <= k < count :: scratch[k] < 16 && DigitChar(scratch[k]) == s[|s| - 1 - k]
  }

  /** The first of the two loops. */
  method CollectDigits(n: nat, base: nat) returns (scratch: array<nat>, count: nat)
    requires 2 <= base <= 16 && n < U32
    ensures fresh(scratch) && scratch.Length == SCRATCH && count == |Digits(n, base)|
    ensures Collected(scratch[..], count, Digits(n, base))
  {
    ScratchSuffices(n, base);
    scratch := new nat[SCRATCH];
    count := 0;
    var iter: nat := n;
    ghost var s := Digits(n, base);
    while true
      invariant count < |s| && s[..|s| - count] == Digits(iter, base)
      invariant Collected(scratch[..], count, s)
      decreases iter
      modifies scratch
    {
      var quotient, digit := SplitDigit(iter, base);
      assert DigitChar(digit) == s[..|s| - count][|s| - 1 - count];
      scratch[count] := digit;
      count := count + 1;
      iter := quotient;
      if iter == 0 { break; }
      assert s[..|s| - count] == s[..|s| - count + 1][..|s| - count];
    }
  }

  /** Take the last digit off a number's notation. */
  method SplitDigit(n: nat, base: nat) returns (quotient: nat, digit: nat)
    requires 2 <= base <= 16
    ensures digit < base
    ensures quotient == 0 ==> Digits(n, base) == [DigitChar(digit)]
    ensures quotient > 0 ==> quotient < n && Digits(n, base) == Digits(quotient, base) + [DigitChar(digit)]
  {
    quotient, digit := n / base, n % base;
    if n < base {
      DivUnique(n, base, 0, n);
    } else {
      DivShrinks(n, base);
      QuotientPositive(n, base);
    }
  }

  lemma QuotientPositive(n: nat, base: nat)
    requires n >= base > 0
    ensures n / base > 0
  {
    var q, r := n / base, n % base;
    assert n == q * base + r && r < base;
  }

  /** `kstrcpy` of a string literal: its characters and a NUL. */
  method CopyString(result: array<char>, i: nat, s: string)
    requires i + |s| < result.Length
    modifies result
    ensures Wrote(old(result[..]), result[..], i, s, true)
  {
    var k := 0;
    while k < |s|
      invariant k <= |s|
      invariant forall p | i <= p < i + k :: result[p] == s[p - i]
      invariant forall p | 0 <= p < result.Length && !(i <= p < i + k) :: result[p] == old(result[p])
    {
      result[i + k] := s[k];
      k := k + 1;
    }
    result[i + k] := '\0';
  }

  /** `render_string` */
  method RenderString(result: array<char>, i: nat, s: string) returns (next: nat)
    requires i + |s| < result.Length
    modifies result
    ensures next == i + |s| && Wrote(old(result[..]), result[..], i, s, false)
  {
    next := i;
    var k := 0;
    while k < |s|
      invariant k <= |s| && next == i + k
      invariant forall p | i <= p < next :: result[p] == s[p - i]
      invariant forall p | 0 <= p < result.Length && !(i <= p < next) :: result[p] == old(result[p])
    {
      result[next] := s[k];
      next := next + 1;
      k := k + 1;
    }
  }

  /** `render_integer`: the smallest integer, which has no 32-bit negation, is a literal. */
  method RenderInteger(result: array<char>, i: nat, v: int) returns (next: nat)
    requires INT_MIN <= v < 0x8000_0000 && i + |Decimal(v)| < result.Length
    modifies result
    ensures next == i + |Decimal(v)| && Wrote(old(result[..]), result[..], i, Decimal(v), v == INT_MIN)
  {
    if v == INT_MIN {
      var rendered := "-2147483648";
      IntMinNotation();
      CopyString(result, i, rendered);
      return i + |rendered|;
    }
    if v < 0 {
      next := RenderNegative(result, i, v);
    } else {
      next := RenderDigits(result, i, v, 10);
    }
  }

  /** The sign, and then the digits of the number without it. */
  method RenderNegative(result: array<char>, i: nat, v: int) returns (next: nat)
    requires INT_MIN < v < 0 && i + |Decimal(v)| < result.Length
    modifies result
    ensures next == i + |Decimal(v)| && Wrote(old(result[..]), result[..], i, Decimal(v), false)
  {
    ghost var was := result[..];
    result[i] := '-';
    ghost var signed := result[..];
    next := RenderDigits(result, i + 1, -v, 10);
    SignedWrote(was, signed, result[..], i, Digits(-v, 10));
  }

  lemma SignedWrote(was: seq<char>, signed: seq<char>, now: seq<char>, i: nat, digits: string)
    requires i < |was| && signed == was[i := '-'] && Wrote(signed, now, i + 1, digits, false)
    ensures Wrote(was, now, i, "-" + digits, false)
  {
    assert Wrote(was, signed, i, "-", false);
    WroteMore(was, signed, now, i, "-", digits, false, false);
  }

  /** The `switch` of `kvsprintf`, for a known directive. */
  method RenderArgument(result: array<char>, i: nat, directive: char, arg: Arg) returns (next: nat)
    requires directive in DIRECTIVES && Suits(directive, arg) && i + |Rendered(directive, arg)| < result.Length
    modifies result
    ensures next == i + |Rendered(directive, arg)|
    ensures Wrote(old(result[..]), result[..], i, Rendered(directive, arg), CopiesNul(directive, arg))
  {
    match directive
    case 'd' => next := RenderInteger(result, i, Signed(arg.value));
    case 'u' => next := RenderDigits(result, i, arg.value, 10);
    case 'x' => next := RenderDigits(result, i, arg.value, 16);
    case 'b' => next := RenderDigits(result, i, arg.value, 2);
    case 's' => next := RenderString(result, i, arg.text);
    case _ =>
      result[i] := (arg.value % 0x100) as char;
      next := i + 1;
  }

  /** `kvsprintf`: writes exactly what the pure formatter says. Behind it stands a NUL when the format
      was understood to its end. At an unknown directive it returns at once, so then the string is
      terminated only if a NUL copied along with the smallest integer happens to stand there. */
  method Kvsprintf(result: array<char>, format: string, args: seq<Arg>) returns (n: nat)
    requires '\0' !in format && Supplied(format, args) && |Format(format, args).0| < result.Length
    modifies result
    ensures n == |Format(format, args).0|
    ensures result[..n] == Format(format, args).0
    ensures result[n] == if WellFormed(format) || NulBehind(format, args, false) then '\0' else old(result[n])
    ensures forall p | n < p < result.Length :: result[p] == old(result[p])
  {
    ghost var was, out, done := result[..], Format(format, args), "";
    ghost var nul, last := false, NulBehind(format, args, false);
    UnderstoodExactly(format, args);
    n := 0;
    var f, a := 0, 0;
    assert format[0..] == format && args[0..] == args;
    while f < |format|
      invariant f <= |format| && a <= |args| && n == |done|
      invariant Continues(format, f, args, a, done, out, nul, last)
      invariant Wrote(was, result[..], 0, done, nul)
    {
      ghost var before := result[..];
      if format[f] == '%' {
        if f + 1 == |format| || format[f + 1] !in DIRECTIVES {
          UnknownAt(format, f, args, a, done, out, nul, last);
          return;
        }
        DirectiveAt(format, f, args, a, done, out, nul, last);
        ghost var text, copied := Rendered(format[f + 1], args[a]), CopiesNul(format[f + 1], args[a]);
        n := RenderArgument(result, n, format[f + 1], args[a]);
        WroteMore(was, before, result[..], 0, done, text, nul, copied);
        done, nul, f, a := done + text, copied || (nul && text == ""), f + 2, a + 1;
      } else {
        PlainAt(format, f, args, a, done, out, nul, last);
        n := PutChar(result, n, format[f]);
        WroteMore(was, before, result[..], 0, done, [format[f]], nul, false);
        done, nul, f := done + [format[f]], false, f + 1;
      }
    }
    assert format[f..] == "";
    ghost var written := result[..];
    assert written[0..n] == done == out.0;
    result[n] := '\0';
    assert result[..n] == written[..n] == written[0..n];
  }

  method PutChar(result: array<char>, i: nat, c: char) returns (next: nat)
    requires i + 1 < result.Length
    modifies result
    ensures next == i + 1 && Wrote(old(result[..]), result[..], i, [c], false)
  {
    result[i] := c;
    next := i + 1;
  }

  /** `done` has been written, with a NUL behind it if `nul`, and the format and arguments from `f`
      and `a` on produce the rest of `out` and leave a NUL behind it if `last`. */
  ghost predicate Continues(format: string, f: nat, args: seq<Arg>, a: nat, done: string, out: (string, bool),
                            nul: bool, last: bool)
  {
    && f <= |format| && a <= |args| && Supplied(format[f..], args[a..])
    && done + Format(format[f..], args[a..]).0 == out.0 && Format(format[f..], args[a..]).1 == out.1
    && NulBehind(format[f..], args[a..], nul) == last
  }

  lemma UnknownAt(format: string, f: nat, args: seq<Arg>, a: nat, done: string, out: (string, bool),
                  nul: bool, last: bool)
    requires Continues(format, f, args, a, done, out, nul, last) && f < |format| && format[f] == '%'
    requires f + 1 == |format| || format[f + 1] !in DIRECTIVES
    ensures done == out.0 && !out.1 && nul == last
  {
    assert |format[f..]| > 1 ==> format[f..][1] == format[f + 1];
  }

  lemma PlainAt(format: string, f: nat, args: seq<Arg>, a: nat, done: string, out: (string, bool),
                nul: bool, last: bool)
    requires Continues(format, f, args, a, done, out, nul, last) && f < |format| && format[f] != '%'
    ensures |done| + 1 <= |out.0|
    ensures Continues(format, f + 1, args, a, done + [format[f]], out, false, last)
  {
    assert format[f..][1..] == format[f + 1..];
    var rest := Format(format[f + 1..], args[a..]).0;
    assert done + ([format[f]] + rest) == done + [format[f]] + rest;
  }

  lemma DirectiveAt(format: string, f: nat, args: seq<Arg>, a: nat, done: string, out: (string, bool),
                    nul: bool, last: bool)
    requires Continues(format, f, args, a, done, out, nul, last) && f + 1 < |format| && format[f] == '%'
    requires format[f + 1] in DIRECTIVES
    ensures a < |args| && Suits(format[f + 1], args[a])
    ensures |done| + |Rendered(format[f + 1], args[a])| <= |out.0|
    ensures var text := Rendered(format[f + 1], args[a]);
            Continues(format, f + 2, args, a + 1, done + text, out,
              CopiesNul(format[f + 1], args[a]) || (nul && text == ""), last)
  {
    var tail, left := format[f..], args[a..];
    assert tail[0] == '%' && tail[1] == format[f + 1] && tail[2..] == format[f + 2..];
    assert left != [] && left[0] == args[a] && left[1..] == args[a + 1..];
    DirectiveStep(tail, left);
    var text, rest := Rendered(format[f + 1], args[a]), Format(format[f + 2..], args[a + 1..]).0;
    assert done + (text + rest) == done + text + rest;
  }
}
