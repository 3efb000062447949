/**
 * Operator characters with their MathML operator-dictionary category
 * (crates/mathml-renderer/src/symbol.rs). Only the behaviour of the
 * wrapper types is modelled; of the constant table, the handful of
 * constants the lexer and parser use are declared here.
 */
module Symbol {
  import opened Wrappers

  /** Code points that fit a single UTF-16 code unit and are valid chars. */
  type BmpCode = c: int | 0 <= c <= 0xFFFF && !(0xD800 <= c <= 0xDFFF)

  /** A character of the Basic Multilingual Plane, stored as a `u16`. */
  datatype BMPChar = BMPChar(code: BmpCode) {
    function AsChar(): (c: char)
      ensures c as int == code
    {
      code as char
    }
  }

  /** `BMPChar::new`: asserts that the character lies in the BMP. */
  function NewBMPChar(ch: char): (b: BMPChar)
    requires ch as int <= 0xFFFF
    ensures b.AsChar() == ch
  {
    BMPChar(ch as int)
  }

  /** A character for use in an `<mo>` element. */
  datatype MathMLOperator = MathMLOperator(ch: char)

  datatype OrdCategory = D | E | F | G | FGandForceDefault | I | K | KButUsedToBeB
  datatype OpCategory = C | H | J
  datatype BinCategory = B | BD
  datatype RelCategory = Default | A

  datatype Stretchy = Always | PrePostfix | Never | AlwaysAsymmetric

  datatype StretchableOp = StretchableOp(ch: BMPChar, stretchy: Stretchy, nonzeroSpacing: bool) {
    function AsChar(): char {
      ch.AsChar()
    }
  }

  /** Zero-spacing operators (categories D, E, F, G, I, K). */
  datatype OrdLike = OrdLike(ch: BMPChar, cat: OrdCategory) {
    function AsOp(): (op: MathMLOperator)
      ensures op.ch as int == ch.code
    {
      MathMLOperator(ch.AsChar())
    }

    /** Only the stretchable categories F, G and K (and their variants) convert. */
    function AsStretchableOp(): (r: Option<StretchableOp>)
      ensures r.None? <==> cat in {OrdCategory.D, OrdCategory.E, OrdCategory.I}
      ensures r.Some? ==> r.value.AsChar() == AsOp().ch
      ensures r.Some? ==> r.value.stretchy != AlwaysAsymmetric
      ensures r.Some? ==> (r.value.nonzeroSpacing <==> cat in {FGandForceDefault, KButUsedToBeB})
    {
      match cat
      case F | G => Some(StretchableOp(ch, Always, false))
      case FGandForceDefault => Some(StretchableOp(ch, PrePostfix, true))
      case K => Some(StretchableOp(ch, Never, false))
      case KButUsedToBeB => Some(StretchableOp(ch, Never, true))
      case _ => None
    }
  }

  /** Operators with operator spacing (categories C, H, J). */
  datatype Op = Op(ch: BMPChar, cat: OpCategory) {
    function AsOp(): (op: MathMLOperator)
      ensures op.ch as int == ch.code
    {
      MathMLOperator(ch.AsChar())
    }
  }

  /** Operators with binary-operator spacing (categories B and BD). */
  datatype Bin = Bin(ch: BMPChar, cat: BinCategory) {
    function AsOp(): (op: MathMLOperator)
      ensures op.ch as int == ch.code
    {
      MathMLOperator(ch.AsChar())
    }
  }

  /** Operators with relation spacing. */
  datatype Rel = Rel(ch: BMPChar, cat: RelCategory) {
    function AsOp(): (op: MathMLOperator)
      ensures op.ch as int == ch.code
    {
      MathMLOperator(ch.AsChar())
    }

    /** Only category A relations stretch, always asymmetrically and with spacing. */
    function AsStretchableOp(): (r: Option<StretchableOp>)
      ensures r.Some? <==> cat == RelCategory.A
      ensures r.Some? ==> r.value.AsChar() == AsOp().ch
      ensures r.Some? ==> r.value.stretchy == AlwaysAsymmetric && r.value.nonzeroSpacing
    {
      match cat
      case A => Some(StretchableOp(ch, AlwaysAsymmetric, true))
      case _ => None
    }
  }

  /** Punctuation (category M), stored as a plain char. */
  datatype Punct = Punct(ch: char) {
    function AsOp(): (op: MathMLOperator)
      ensures op.ch == ch
    {
      MathMLOperator(ch)
    }
  }

  /** The asymmetric stretch mode tells a stretchable relation from a stretchable ordinary. */
  lemma StretchModeSeparatesClasses(o: OrdLike, r: Rel)
    requires o.AsStretchableOp().Some? && r.AsStretchableOp().Some?
    ensures o.AsStretchableOp().value != r.AsStretchableOp().value
  {
  }

  const EXCLAMATION_MARK: MathMLOperator := MathMLOperator('!')
  const LEFT_PARENTHESIS: OrdLike := OrdLike(BMPChar(0x28), OrdCategory.F)
  const RIGHT_PARENTHESIS: OrdLike := OrdLike(BMPChar(0x29), OrdCategory.G)
  const PLUS_SIGN: Bin := Bin(BMPChar(0x2B), BinCategory.BD)
  const COMMA: Punct := Punct(',')
  const SOLIDUS: OrdLike := OrdLike(BMPChar(0x2F), OrdCategory.KButUsedToBeB)
  const COLON: Punct := Punct(':')
  const SEMICOLON: Punct := Punct(';')
  const EQUALS_SIGN: Rel := Rel(BMPChar(0x3D), RelCategory.Default)
  const VERTICAL_LINE: OrdLike := OrdLike(BMPChar(0x7C), OrdCategory.FGandForceDefault)
  const PRIME: OrdLike := OrdLike(BMPChar(0x2032), OrdCategory.E)
  const DOUBLE_PRIME: OrdLike := OrdLike(BMPChar(0x2033), OrdCategory.E)
  const TRIPLE_PRIME: OrdLike := OrdLike(BMPChar(0x2034), OrdCategory.E)
  const QUADRUPLE_PRIME: OrdLike := OrdLike(BMPChar(0x2057), OrdCategory.E)
  const MINUS_SIGN: Bin := Bin(BMPChar(0x2212), BinCategory.BD)
  const ASTERISK_OPERATOR: Bin := Bin(BMPChar(0x2217), BinCategory.BD)
}
