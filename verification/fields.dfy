/** Field kinds of a log-line declaration, the values a caller supplies for the
    runtime kinds, and what every field renders as. */
module Fields {

  datatype Option<T> = None | Some(value: T)

  /** Whether a field's content is fixed by the declaration (Static) or supplied
      by the caller on every `add` (Runtime, i.e. derived from `runtime_field`). */
  datatype Tag = Static | Runtime

  /** The kind of one declared entry: the C++ field type named in a `format<...>`. */
  datatype Kind =
    | LiteralText(literal: string)   // text<logstr<chars...>>
    | Separator(ch: char)            // separator<c>
    | Indent(width: nat)             // indent<w>
    | RuntimeText                    // text<> (text<void>)
    | Number                         // number

  /** A field object: what is handed to the renderer. */
  datatype Field =
    | LiteralField(literal: string)
    | SeparatorField(ch: char)
    | IndentField(width: nat)
    | TextField(str: string)
    | NumberField(n: int)

  /** The tag is decided by the kind alone, never by a value. */
  function TagOf(k: Kind): (t: Tag)
    ensures t == Runtime <==> k == RuntimeText || k == Number
  {
    match k
    case RuntimeText => Runtime
    case Number => Runtime
    case _ => Static
  }

  predicate IsRuntime(k: Kind)
  {
    TagOf(k) == Runtime
  }

  function KindOf(f: Field): Kind
  {
    match f
    case LiteralField(s) => LiteralText(s)
    case SeparatorField(c) => Separator(c)
    case IndentField(w) => Indent(w)
    case TextField(_) => RuntimeText
    case NumberField(_) => Number
  }

  /** The field a declared kind default-constructs to: literal, separator and
      indent carry their template parameters; `text()` holds "" and `number()` holds 0. */
  function Default(k: Kind): (f: Field)
    ensures KindOf(f) == k
    ensures IsRuntime(k) ==> f == TextField("") || f == NumberField(0)
  {
    match k
    case LiteralText(s) => LiteralField(s)
    case Separator(c) => SeparatorField(c)
    case Indent(w) => IndentField(w)
    case RuntimeText => TextField("")
    case Number => NumberField(0)
  }

  /** `std::string(width, ' ')`. */
  function Spaces(width: nat): (r: string)
    ensures |r| == width
    ensures forall k :: 0 <= k < |r| ==> r[k] == ' '
  {
    seq(width, _ => ' ')
  }

  // ----- base-10 text of an integer (std::to_string, operator<< on int) -----

  predicate IsDigit(c: char)
  {
    '0' <= c <= '9'
  }

  function DigitChar(d: nat): (c: char)
    requires d < 10
    ensures IsDigit(c) && DigitValue(c) == d
  {
    (d + '0' as int) as char
  }

  function DigitValue(c: char): nat
    requires IsDigit(c)
  {
    c as int - '0' as int
  }

  /** Decimal digits of `n`, most significant first, without leading zeros. */
  function NatDigits(n: nat): (s: string)
    ensures |s| >= 1
    ensures forall k :: 0 <= k < |s| ==> IsDigit(s[k])
    ensures s[0] == '0' ==> n == 0 && s == "0"
    decreases n
  {
    if n < 10 then [DigitChar(n)] else NatDigits(n / 10) + [DigitChar(n % 10)]
  }

  /** Base-10 text of `n`, with a leading '-' when it is negative. */
  function ToDecimal(n: int): (s: string)
    ensures |s| >= 1
    ensures s[0] == '-' <==> n < 0
  {
    if n < 0 then "-" + NatDigits(-n) else NatDigits(n)
  }

  /** The value of a string of digits, read most significant first. */
  function DigitsValue(s: string): nat
    requires forall k :: 0 <= k < |s| ==> IsDigit(s[k])
  {
    if s == [] then 0 else DigitsValue(s[..|s| - 1]) * 10 + DigitValue(s[|s| - 1])
  }

  predicate AllDigits(s: string)
  {
    forall k :: 0 <= k < |s| ==> IsDigit(s[k])
  }

  /** Reads back the text of an integer: an optional '-' and at least one digit. */
  function ParseDecimal(s: string): Option<int>
  {
    if |s| >= 2 && s[0] == '-' && AllDigits(s[1..]) then Some(0 - DigitsValue(s[1..]))
    else if |s| >= 1 && AllDigits(s) then Some(DigitsValue(s))
    else None
  }

  lemma {:induction false} NatDigitsValue(n: nat)
    ensures DigitsValue(NatDigits(n)) == n
    decreases n
  {
    if n >= 10 {
      var s := NatDigits(n);
      assert s[..|s| - 1] == NatDigits(n / 10);
      NatDigitsValue(n / 10);
    }
  }

  /** The decimal text of every integer reads back as that integer. */
  lemma ToDecimalRoundTrip(n: int)
    ensures ParseDecimal(ToDecimal(n)) == Some(n)
  {
    var s := ToDecimal(n);
    if n < 0 {
      var d := NatDigits(-n);
      assert s == "-" + d;
      assert s[1..] == d;
      assert AllDigits(d);
      NatDigitsValue(-n);
      assert ParseDecimal(s) == Some(0 - DigitsValue(d));
    } else {
      assert AllDigits(NatDigits(n)) && NatDigits(n)[0] != '-';
      NatDigitsValue(n);
    }
  }

  /** Distinct integers never render to the same text. */
  lemma ToDecimalInjective(a: int, b: int)
    requires ToDecimal(a) == ToDecimal(b)
    ensures a == b
  {
    ToDecimalRoundTrip(a);
    ToDecimalRoundTrip(b);
  }

  /** Index of the first `c` in `s`, or `|s|` when there is none. */
  function FirstOf(s: string, c: char): (n: nat)
    ensures n <= |s|
    ensures forall k :: 0 <= k < n ==> s[k] != c
    ensures n < |s| ==> s[n] == c
  {
    if s == [] || s[0] == c then 0 else 1 + FirstOf(s[1..], c)
  }

  /** What `os << p` writes for a `const char* p` holding `s`: the characters
      before the first '\0', which ends the C string. */
  function CString(s: string): (r: string)
    ensures |r| <= |s| && r == s[..|r|]
    ensures forall k :: 0 <= k < |r| ==> r[k] != '\0'
    ensures |r| < |s| ==> s[|r|] == '\0'
  {
    s[..FirstOf(s, '\0')]
  }

  /** A string without '\0' is written whole. */
  lemma CStringNoNul(s: string)
    requires forall k :: 0 <= k < |s| ==> s[k] != '\0'
    ensures CString(s) == s
  {
  }

  /** What one field writes into the stream (its `out`). Literal and runtime
      text are C strings, so they are cut at an embedded '\0'. */
  function Render(f: Field): (r: string)
    ensures f.LiteralField? ==> r == CString(f.literal)
    ensures f.TextField? ==> r == CString(f.str)
    ensures f.SeparatorField? ==> r == [f.ch]
    ensures f.IndentField? ==> |r| == f.width && forall k :: 0 <= k < |r| ==> r[k] == ' '
    ensures f.NumberField? ==> ParseDecimal(r) == Some(f.n)
  {
    match f
    case LiteralField(s) => CString(s)
    case SeparatorField(c) => [c]
    case IndentField(w) => Spaces(w)
    case TextField(s) => CString(s)
    case NumberField(n) => ToDecimalRoundTrip(n); ToDecimal(n)
  }

  /** The stream contents after rendering `fs` left to right. */
  function RenderAll(fs: seq<Field>): string
  {
    if fs == [] then "" else Render(fs[0]) + RenderAll(fs[1..])
  }

  /** Rendering a concatenation writes the first part, then the second. */
  lemma {:induction false} RenderAllAppend(a: seq<Field>, b: seq<Field>)
    ensures RenderAll(a + b) == RenderAll(a) + RenderAll(b)
  {
    if a != [] {
      assert (a + b)[1..] == a[1..] + b;
      RenderAllAppend(a[1..], b);
    } else {
      assert a + b == b;
    }
  }
}
