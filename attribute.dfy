/**
 * Rendering attributes (math-core/src/mathml_renderer/attribute.rs): the
 * math variants, the spacing values, and the transform of letters and
 * digits into the Unicode Mathematical Alphanumeric Symbols block.
 */
module Attribute {
  datatype TextTransform =
    | Bold | BoldFraktur | BoldItalic | BoldSansSerif | BoldScript | DoubleStruck | Fraktur
    | Italic | Monospace | SansSerif | SansSerifBoldItalic | SansSerifItalic
    | ScriptChancery | ScriptRoundhand

  datatype MathVariant = Normal | Transform(tf: TextTransform)

  datatype MathSpacing = Zero | ThreeMu | FourMu | FiveMu

  /** Only bold italic renders "upright" letters (such as `\Alpha`) differently. */
  predicate DiffersOnUprightLetters(v: MathVariant) {
    v == Transform(BoldItalic)
  }

  lemma DiffersOnlyForBoldItalic(v: MathVariant)
    ensures DiffersOnUprightLetters(v) <==> v.Transform? && v.tf == BoldItalic
  {
  }

  predicate IsCharCode(n: int) {
    0 <= n < 0xD800 || 0xE000 <= n < 0x11_0000
  }

  /** `add_offset`: the char `offset` code points after `c`. */
  function AddOffset(c: char, offset: int): (r: char)
    requires IsCharCode(c as int + offset)
    ensures r as int == c as int + offset
  {
    (c as int + offset) as char
  }

  predicate Upper(c: char) { 'A' <= c <= 'Z' }
  predicate Lower(c: char) { 'a' <= c <= 'z' }
  predicate Digit(c: char) { '0' <= c <= '9' }
  /** The Greek capital range U+0391..U+03A9 (it includes the unassigned U+03A2). */
  predicate GreekUpper(c: char) { 'Α' <= c <= 'Ω' }
  predicate GreekLower(c: char) { 'α' <= c <= 'ω' }

  /** The nine Greek and mathematical symbols with individual bold/italic forms. */
  predicate GreekSymbol(c: char) {
    c == 'ϴ' || c == '∇' || c == '∂' || c == 'ϵ' || c == 'ϑ'
    || c == 'ϰ' || c == 'ϕ' || c == 'ϱ' || c == 'ϖ'
  }

  /**
   * The target of a Greek symbol in a variant whose bold-italic-like block
   * starts with the capital theta symbol at `theta`. In every variant the
   * symbols are laid out as theta, nabla (+8), partial (+34), then the
   * epsilon, theta, kappa, phi, rho and pi symbols (+35 .. +40).
   */
  function GreekSymbolTarget(c: char, theta: int): char
    requires GreekSymbol(c)
    requires 0x1D400 <= theta <= 0x1D7A1
  {
    match c
    case 'ϴ' => theta as char
    case '∇' => (theta + 8) as char
    case '∂' => (theta + 34) as char
    case 'ϵ' => (theta + 35) as char
    case 'ϑ' => (theta + 36) as char
    case 'ϰ' => (theta + 37) as char
    case 'ϕ' => (theta + 38) as char
    case 'ϱ' => (theta + 39) as char
    case 'ϖ' => (theta + 40) as char
  }

  /** `TextTransform::transform` for a letter that is not upright. */
  function Apply(tf: TextTransform, c: char): char {
    match tf
    case BoldScript =>
      if Upper(c) then AddOffset(c, 0x1D48F)
      else if Lower(c) then AddOffset(c, 0x1D489)
      else c
    case BoldItalic =>
      if Upper(c) then AddOffset(c, 0x1D427)
      else if Lower(c) then AddOffset(c, 0x1D421)
      else if GreekUpper(c) then AddOffset(c, 0x1D38B)
      else if GreekLower(c) then AddOffset(c, 0x1D385)
      else if GreekSymbol(c) then GreekSymbolTarget(c, 0x1D72D)
      else c
    case Bold =>
      if Upper(c) then AddOffset(c, 0x1D3BF)
      else if Lower(c) then AddOffset(c, 0x1D3B9)
      else if GreekUpper(c) then AddOffset(c, 0x1D317)
      else if GreekLower(c) then AddOffset(c, 0x1D311)
      else if 'Ϝ' <= c <= 'ϝ' then AddOffset(c, 0x1D3EE)
      else if Digit(c) then AddOffset(c, 0x1D79E)
      else if GreekSymbol(c) then GreekSymbolTarget(c, 0x1D6B9)
      else c
    case Fraktur =>
      if 'A' <= c <= 'B' || 'D' <= c <= 'G' || 'J' <= c <= 'Q' || 'S' <= c <= 'Y' then AddOffset(c, 0x1D4C3)
      else if 'H' <= c <= 'I' then AddOffset(c, 0x20C4)
      else if Lower(c) then AddOffset(c, 0x1D4BD)
      else if c == 'C' then 'ℭ'
      else if c == 'R' then 'ℜ'
      else if c == 'Z' then 'ℨ'
      else c
    case ScriptChancery | ScriptRoundhand =>
      if c == 'A' || 'C' <= c <= 'D' || c == 'G' || 'J' <= c <= 'K' || 'N' <= c <= 'Q' || 'S' <= c <= 'Z' then AddOffset(c, 0x1D45B)
      else if 'E' <= c <= 'F' then AddOffset(c, 0x20EB)
      else if 'a' <= c <= 'd' || c == 'f' || 'h' <= c <= 'n' || 'p' <= c <= 'z' then AddOffset(c, 0x1D455)
      else if c == 'B' then 'ℬ'
      else if c == 'H' then 'ℋ'
      else if c == 'I' then 'ℐ'
      else if c == 'L' then 'ℒ'
      else if c == 'M' then 'ℳ'
      else if c == 'R' then 'ℛ'
      else if c == 'e' then 'ℯ'
      else if c == 'g' then 'ℊ'
      else if c == 'o' then 'ℴ'
      else c
    case Monospace =>
      if Upper(c) then AddOffset(c, 0x1D62F)
      else if Lower(c) then AddOffset(c, 0x1D629)
      else if Digit(c) then AddOffset(c, 0x1D7C6)
      else c
    case SansSerif =>
      if Upper(c) then AddOffset(c, 0x1D55F)
      else if Lower(c) then AddOffset(c, 0x1D559)
      else if Digit(c) then AddOffset(c, 0x1D7B2)
      else c
    case BoldFraktur =>
      if Upper(c) then AddOffset(c, 0x1D52B)
      else if Lower(c) then AddOffset(c, 0x1D525)
      else c
    case SansSerifBoldItalic =>
      if Upper(c) then AddOffset(c, 0x1D5FB)
      else if Lower(c) then AddOffset(c, 0x1D5F5)
      else if GreekUpper(c) then AddOffset(c, 0x1D3FF)
      else if GreekLower(c) then AddOffset(c, 0x1D3F9)
      else if GreekSymbol(c) then GreekSymbolTarget(c, 0x1D7A1)
      else c
    case SansSerifItalic =>
      if Upper(c) then AddOffset(c, 0x1D5C7)
      else if Lower(c) then AddOffset(c, 0x1D5C1)
      else c
    case BoldSansSerif =>
      if Upper(c) then AddOffset(c, 0x1D593)
      else if Lower(c) then AddOffset(c, 0x1D58D)
      else if GreekUpper(c) then AddOffset(c, 0x1D3C5)
      else if GreekLower(c) then AddOffset(c, 0x1D3BF)
      else if Digit(c) then AddOffset(c, 0x1D7BC)
      else if GreekSymbol(c) then GreekSymbolTarget(c, 0x1D767)
      else c
    case DoubleStruck =>
      if 'A' <= c <= 'B' || 'D' <= c <= 'G' || 'I' <= c <= 'M' || c == 'O' || 'S' <= c <= 'Y' then AddOffset(c, 0x1D4F7)
      else if 'P' <= c <= 'Q' then AddOffset(c, 0x20C9)
      else if Lower(c) then AddOffset(c, 0x1D4F1)
      else if Digit(c) then AddOffset(c, 0x1D7A8)
      else if c == 'C' then 'ℂ'
      else if c == 'H' then 'ℍ'
      else if c == 'N' then 'ℕ'
      else if c == 'R' then 'ℝ'
      else if c == 'Z' then 'ℤ'
      else c
    case Italic =>
      if Upper(c) then AddOffset(c, 0x1D3F3)
      else if 'a' <= c <= 'g' || 'i' <= c <= 'z' then AddOffset(c, 0x1D3ED)
      else if GreekUpper(c) then AddOffset(c, 0x1D351)
      else if GreekLower(c) then AddOffset(c, 0x1D34B)
      else if c == 'h' then 'ℎ'
      else if c == 'ı' then '\U{1D6A4}'
      else if c == 'ȷ' then '\U{1D6A5}'
      else if GreekSymbol(c) then GreekSymbolTarget(c, 0x1D6F3)
      else c
  }

  /** `TextTransform::transform`: an upright letter in bold italic is set in bold. */
  function TransformChar(tf: TextTransform, c: char, isUpright: bool): char {
    Apply(if isUpright && tf == BoldItalic then Bold else tf, c)
  }

  lemma UprightBoldItalicIsBold(c: char)
    ensures TransformChar(BoldItalic, c, true) == TransformChar(Bold, c, false)
    ensures forall tf :: tf != BoldItalic ==> TransformChar(tf, c, true) == TransformChar(tf, c, false)
  {
  }

  /** The characters each variant has a form for: an independent statement of its ranges. */
  predicate InDomain(tf: TextTransform, c: char) {
    match tf
    case Bold => Upper(c) || Lower(c) || GreekUpper(c) || GreekLower(c) || GreekSymbol(c) || Digit(c) || 'Ϝ' <= c <= 'ϝ'
    case BoldItalic | SansSerifBoldItalic => Upper(c) || Lower(c) || GreekUpper(c) || GreekLower(c) || GreekSymbol(c)
    case BoldSansSerif => Upper(c) || Lower(c) || GreekUpper(c) || GreekLower(c) || GreekSymbol(c) || Digit(c)
    case Italic => Upper(c) || Lower(c) || GreekUpper(c) || GreekLower(c) || GreekSymbol(c) || c == 'ı' || c == 'ȷ'
    case Monospace | SansSerif | DoubleStruck => Upper(c) || Lower(c) || Digit(c)
    case BoldScript | BoldFraktur | Fraktur | ScriptChancery | ScriptRoundhand | SansSerifItalic => Upper(c) || Lower(c)
  }

  /** A character is changed exactly when the variant has a form for it. */
  lemma ApplyMovesExactlyDomain(tf: TextTransform, c: char)
    ensures Apply(tf, c) != c <==> InDomain(tf, c)
  {
    if GreekSymbol(c) {
      GreekSymbolMoves(tf, c);
    } else if tf == Bold || tf == BoldItalic || tf == SansSerifBoldItalic || tf == BoldSansSerif || tf == Italic {
      GreekVariantMovesExactlyDomain(tf, c);
    } else {
      LatinVariantMovesExactlyDomain(tf, c);
    }
  }

  lemma GreekVariantMovesExactlyDomain(tf: TextTransform, c: char)
    requires tf == Bold || tf == BoldItalic || tf == SansSerifBoldItalic || tf == BoldSansSerif || tf == Italic
    requires !GreekSymbol(c)
    ensures Apply(tf, c) != c <==> InDomain(tf, c)
  {
  }

  lemma LatinVariantMovesExactlyDomain(tf: TextTransform, c: char)
    requires !(tf == Bold || tf == BoldItalic || tf == SansSerifBoldItalic || tf == BoldSansSerif || tf == Italic)
    ensures Apply(tf, c) != c <==> InDomain(tf, c)
  {
  }

  lemma GreekSymbolMoves(tf: TextTransform, c: char)
    requires GreekSymbol(c)
    ensures InDomain(tf, c) ==> Apply(tf, c) != c
  {
  }

  /**
   * Distinct characters of a variant's domain get distinct forms. The one
   * exception is the unassigned code point U+03A2 inside the Greek capital
   * range, whose offset form is the capital theta symbol's form
   * (see TransformThetaCollision).
   */
  lemma ApplyInjective(tf: TextTransform, c1: char, c2: char)
    requires InDomain(tf, c1) && InDomain(tf, c2)
    requires c1 != '΢' && c2 != '΢'
    requires Apply(tf, c1) == Apply(tf, c2)
    ensures c1 == c2
  {
    match tf
    case Bold => ApplyInjectiveBold(c1, c2);
    case BoldItalic => ApplyInjectiveBoldItalic(c1, c2);
    case SansSerifBoldItalic => ApplyInjectiveSansSerifBoldItalic(c1, c2);
    case BoldSansSerif => ApplyInjectiveBoldSansSerif(c1, c2);
    case Italic => ApplyInjectiveItalic(c1, c2);
    case Fraktur => ApplyInjectiveFraktur(c1, c2);
    case DoubleStruck => ApplyInjectiveDoubleStruck(c1, c2);
    case ScriptChancery | ScriptRoundhand => ApplyInjectiveScript(tf, c1, c2);
    case _ => ApplyInjectiveLatin(tf, c1, c2);
  }

  lemma ApplyInjectiveBold(c1: char, c2: char)
    requires InDomain(Bold, c1) && InDomain(Bold, c2)
    requires c1 != '΢' && c2 != '΢'
    requires Apply(Bold, c1) == Apply(Bold, c2)
    ensures c1 == c2
  {
    if GreekSymbol(c1) {
      BoldSymbolInjective(c1, c2);
    } else if GreekSymbol(c2) {
      BoldSymbolInjective(c2, c1);
    }
  }

  /** No other character shares the bold form of a Greek symbol. */
  lemma BoldSymbolInjective(c1: char, c2: char)
    requires GreekSymbol(c1) && InDomain(Bold, c2) && c2 != '΢'
    requires Apply(Bold, c1) == Apply(Bold, c2)
    ensures c1 == c2
  {
  }

  lemma ApplyInjectiveBoldItalic(c1: char, c2: char)
    requires InDomain(BoldItalic, c1) && InDomain(BoldItalic, c2)
    requires c1 != '΢' && c2 != '΢'
    requires Apply(BoldItalic, c1) == Apply(BoldItalic, c2)
    ensures c1 == c2
  {
    if GreekSymbol(c1) {
      BoldItalicSymbolInjective(c1, c2);
    } else if GreekSymbol(c2) {
      BoldItalicSymbolInjective(c2, c1);
    }
  }

  /** No other character shares the bold italic form of a Greek symbol. */
  lemma BoldItalicSymbolInjective(c1: char, c2: char)
    requires GreekSymbol(c1) && InDomain(BoldItalic, c2) && c2 != '΢'
    requires Apply(BoldItalic, c1) == Apply(BoldItalic, c2)
    ensures c1 == c2
  {
  }

  lemma ApplyInjectiveSansSerifBoldItalic(c1: char, c2: char)
    requires InDomain(SansSerifBoldItalic, c1) && InDomain(SansSerifBoldItalic, c2)
    requires c1 != '΢' && c2 != '΢'
    requires Apply(SansSerifBoldItalic, c1) == Apply(SansSerifBoldItalic, c2)
    ensures c1 == c2
  {
    if GreekSymbol(c1) {
      SansSerifBoldItalicSymbolInjective(c1, c2);
    } else if GreekSymbol(c2) {
      SansSerifBoldItalicSymbolInjective(c2, c1);
    }
  }

  /** No other character shares the sans-serif bold italic form of a Greek symbol. */
  lemma SansSerifBoldItalicSymbolInjective(c1: char, c2: char)
    requires GreekSymbol(c1) && InDomain(SansSerifBoldItalic, c2) && c2 != '΢'
    requires Apply(SansSerifBoldItalic, c1) == Apply(SansSerifBoldItalic, c2)
    ensures c1 == c2
  {
  }

  lemma ApplyInjectiveBoldSansSerif(c1: char, c2: char)
    requires InDomain(BoldSansSerif, c1) && InDomain(BoldSansSerif, c2)
    requires c1 != '΢' && c2 != '΢'
    requires Apply(BoldSansSerif, c1) == Apply(BoldSansSerif, c2)
    ensures c1 == c2
  {
    if GreekSymbol(c1) {
      BoldSansSerifSymbolInjective(c1, c2);
    } else if GreekSymbol(c2) {
      BoldSansSerifSymbolInjective(c2, c1);
    }
  }

  /** No other character shares the bold sans-serif form of a Greek symbol. */
  lemma BoldSansSerifSymbolInjective(c1: char, c2: char)
    requires GreekSymbol(c1) && InDomain(BoldSansSerif, c2) && c2 != '΢'
    requires Apply(BoldSansSerif, c1) == Apply(BoldSansSerif, c2)
    ensures c1 == c2
  {
  }

  lemma ApplyInjectiveItalic(c1: char, c2: char)
    requires InDomain(Italic, c1) && InDomain(Italic, c2)
    requires c1 != '΢' && c2 != '΢'
    requires Apply(Italic, c1) == Apply(Italic, c2)
    ensures c1 == c2
  {
    if GreekSymbol(c1) {
      ItalicSymbolInjective(c1, c2);
    } else if GreekSymbol(c2) {
      ItalicSymbolInjective(c2, c1);
    }
  }

  /** No other character shares the italic form of a Greek symbol. */
  lemma ItalicSymbolInjective(c1: char, c2: char)
    requires GreekSymbol(c1) && InDomain(Italic, c2) && c2 != '΢'
    requires Apply(Italic, c1) == Apply(Italic, c2)
    ensures c1 == c2
  {
  }

  lemma ApplyInjectiveFraktur(c1: char, c2: char)
    requires InDomain(Fraktur, c1) && InDomain(Fraktur, c2)
    requires c1 != '΢' && c2 != '΢'
    requires Apply(Fraktur, c1) == Apply(Fraktur, c2)
    ensures c1 == c2
  {
  }

  lemma ApplyInjectiveDoubleStruck(c1: char, c2: char)
    requires InDomain(DoubleStruck, c1) && InDomain(DoubleStruck, c2)
    requires c1 != '΢' && c2 != '΢'
    requires Apply(DoubleStruck, c1) == Apply(DoubleStruck, c2)
    ensures c1 == c2
  {
  }

  lemma ApplyInjectiveScript(tf: TextTransform, c1: char, c2: char)
    requires tf == ScriptChancery || tf == ScriptRoundhand
    requires InDomain(tf, c1) && InDomain(tf, c2)
    requires Apply(tf, c1) == Apply(tf, c2)
    ensures c1 == c2
  {
    if Upper(c1) {
      ScriptInjectiveFromUpper(tf, c1, c2);
    } else if Upper(c2) {
      ScriptInjectiveFromUpper(tf, c2, c1);
    } else {
      ScriptLowerInjective(tf, c1, c2);
    }
  }

  lemma ScriptLowerInjective(tf: TextTransform, c1: char, c2: char)
    requires tf == ScriptChancery || tf == ScriptRoundhand
    requires Lower(c1) && Lower(c2)
    requires Apply(tf, c1) == Apply(tf, c2)
    ensures c1 == c2
  {
  }

  /** The script form of a capital is the form of no other letter. */
  lemma ScriptInjectiveFromUpper(tf: TextTransform, c1: char, c2: char)
    requires tf == ScriptChancery || tf == ScriptRoundhand
    requires Upper(c1) && InDomain(tf, c2)
    requires Apply(tf, c1) == Apply(tf, c2)
    ensures c1 == c2
  {
    if Upper(c2) {
      ScriptUpperInjective(tf, c1, c2);
    }
  }

  lemma ScriptUpperInjective(tf: TextTransform, c1: char, c2: char)
    requires tf == ScriptChancery || tf == ScriptRoundhand
    requires Upper(c1) && Upper(c2)
    requires Apply(tf, c1) == Apply(tf, c2)
    ensures c1 == c2
  {
  }

  lemma ApplyInjectiveLatin(tf: TextTransform, c1: char, c2: char)
    requires tf in {BoldScript, BoldFraktur, SansSerifItalic, Monospace, SansSerif}
    requires InDomain(tf, c1) && InDomain(tf, c2)
    requires Apply(tf, c1) == Apply(tf, c2)
    ensures c1 == c2
  {
  }

  /** Bold maps U+03A2 and the capital theta symbol U+03F4 to the same character. */
  lemma TransformThetaCollision()
    ensures Apply(Bold, '΢') == Apply(Bold, 'ϴ') == '\U{1D6B9}'
  {
  }

  /** The sample mappings of the unit test in attribute.rs. */
  lemma TransformSamples()
    ensures TransformChar(BoldScript, 'G', false) == '\U{1D4D6}'
    ensures TransformChar(Italic, 'H', false) == '\U{1D43B}'
    ensures TransformChar(Fraktur, 'X', false) == '\U{1D51B}'
    ensures TransformChar(ScriptChancery, 'S', false) == '\U{1D4AE}'
    ensures TransformChar(Bold, 'f', false) == '\U{1D41F}'
    ensures TransformChar(Bold, 'g', false) == '\U{1D420}'
    ensures TransformChar(DoubleStruck, 'o', false) == '\U{1D560}'
    ensures TransformChar(Monospace, 'D', false) == '\U{1D673}'
    ensures TransformChar(Monospace, 'x', false) == '\U{1D6A1}'
    ensures TransformChar(Monospace, '2', false) == '\U{1D7F8}'
    ensures TransformChar(SansSerif, 'U', false) == '\U{1D5B4}'
    ensures TransformChar(SansSerif, 'v', false) == '\U{1D5CF}'
    ensures TransformChar(SansSerif, '4', false) == '\U{1D7E6}'
    ensures TransformChar(SansSerifBoldItalic, 'A', false) == '\U{1D63C}'
    ensures TransformChar(SansSerifBoldItalic, 'a', false) == '\U{1D656}'
    ensures TransformChar(SansSerifBoldItalic, 'Α', false) == '\U{1D790}'
    ensures TransformChar(SansSerifBoldItalic, 'α', false) == '\U{1D7AA}'
    ensures TransformChar(SansSerifItalic, 'A', false) == '\U{1D608}'
    ensures TransformChar(SansSerifItalic, 'a', false) == '\U{1D622}'
    ensures TransformChar(BoldSansSerif, 'J', false) == '\U{1D5DD}'
    ensures TransformChar(BoldSansSerif, 'r', false) == '\U{1D5FF}'
    ensures TransformChar(BoldSansSerif, 'Ξ', false) == '\U{1D763}'
    ensures TransformChar(BoldSansSerif, 'τ', false) == '\U{1D783}'
  {
  }
}
