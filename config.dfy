/**
 * The watermark configuration: text, font path, font size, anchor and RGBA
 * colour, each field with its own default when the document leaves it out,
 * and the nine anchor tokens a document writes.
 */
module Config {
  import opened Wrappers
  import opened Placement

  type U8 = x: int | 0 <= x < 256

  /** An `f32`, kept as its IEEE-754 bit pattern; the model does no float arithmetic. */
  datatype F32 = F32(bits: bv32)

  datatype ColorConfig = ColorConfig(r: U8, g: U8, b: U8, a: U8)

  datatype CopyrightConfig = CopyrightConfig(
    text: string,
    fontPath: string,
    fontSize: F32,
    position: Position,
    color: ColorConfig)

  /** The default text exactly as the source spells it: `Â` then `©`, then ` Copyright`. */
  const DEFAULT_TEXT: string := "\U{00C2}\U{00A9} Copyright"
  const DEFAULT_FONT_PATH: string := "/path/to/default/font.ttf"
  /** 20.0 as an `f32`: sign 0, exponent 131, fraction 0.25. */
  const DEFAULT_FONT_SIZE: F32 := F32(0x41A0_0000)
  const DEFAULT_POSITION: Position := BottomRight
  const DEFAULT_COLOR_COMPONENT: U8 := 255
  const DEFAULT_ALPHA: U8 := 128

  /** The colour used when the document has no colour table at all. */
  const DEFAULT_COLOR: ColorConfig := ColorConfig(255, 255, 255, 128)

  /** What a document may give for the colour table; `None` is an absent key. */
  datatype ColorFields = ColorFields(r: Option<U8>, g: Option<U8>, b: Option<U8>, a: Option<U8>)

  /** What a document may give at the top level; `None` is an absent key. */
  datatype ConfigFields = ConfigFields(
    text: Option<string>,
    fontPath: Option<string>,
    fontSize: Option<F32>,
    position: Option<Position>,
    color: Option<ColorFields>)

  function OrDefault<T>(given: Option<T>, default: T): (v: T)
    ensures given.Some? ==> v == given.value
    ensures given.None? ==> v == default
  {
    match given
    case Some(x) => x
    case None => default
  }

  /** A colour table with each absent component defaulted on its own: 255 for red, green and blue, 128 for alpha. */
  function ColorFromFields(c: ColorFields): (col: ColorConfig)
    ensures c.r.Some? ==> col.r == c.r.value
    ensures c.g.Some? ==> col.g == c.g.value
    ensures c.b.Some? ==> col.b == c.b.value
    ensures c.a.Some? ==> col.a == c.a.value
    ensures c.r.None? ==> col.r == DEFAULT_COLOR_COMPONENT
    ensures c.g.None? ==> col.g == DEFAULT_COLOR_COMPONENT
    ensures c.b.None? ==> col.b == DEFAULT_COLOR_COMPONENT
    ensures c.a.None? ==> col.a == DEFAULT_ALPHA
  {
    ColorConfig(
      OrDefault(c.r, DEFAULT_COLOR_COMPONENT),
      OrDefault(c.g, DEFAULT_COLOR_COMPONENT),
      OrDefault(c.b, DEFAULT_COLOR_COMPONENT),
      OrDefault(c.a, DEFAULT_ALPHA))
  }

  /** A document with each absent field defaulted on its own; a given field is kept as written. */
  function ConfigFromFields(f: ConfigFields): (c: CopyrightConfig)
    ensures f.text.Some? ==> c.text == f.text.value
    ensures f.fontPath.Some? ==> c.fontPath == f.fontPath.value
    ensures f.fontSize.Some? ==> c.fontSize == f.fontSize.value
    ensures f.position.Some? ==> c.position == f.position.value
    ensures f.text.None? ==> c.text == DEFAULT_TEXT
    ensures f.fontPath.None? ==> c.fontPath == DEFAULT_FONT_PATH
    ensures f.fontSize.None? ==> c.fontSize == DEFAULT_FONT_SIZE
    ensures f.position.None? ==> c.position == DEFAULT_POSITION
    ensures f.color.None? ==> c.color == DEFAULT_COLOR
    ensures f.color.Some? ==> c.color == ColorFromFields(f.color.value)
  {
    CopyrightConfig(
      OrDefault(f.text, DEFAULT_TEXT),
      OrDefault(f.fontPath, DEFAULT_FONT_PATH),
      OrDefault(f.fontSize, DEFAULT_FONT_SIZE),
      OrDefault(f.position, DEFAULT_POSITION),
      match f.color
      case None => DEFAULT_COLOR
      case Some(c) => ColorFromFields(c))
  }

  const EMPTY_COLOR: ColorFields := ColorFields(None, None, None, None)
  const EMPTY_DOCUMENT: ConfigFields := ConfigFields(None, None, None, None, None)

  /** Every field of a complete document given explicitly. */
  function FieldsOf(c: CopyrightConfig): ConfigFields
  {
    ConfigFields(Some(c.text), Some(c.fontPath), Some(c.fontSize), Some(c.position),
                 Some(ColorFields(Some(c.color.r), Some(c.color.g), Some(c.color.b), Some(c.color.a))))
  }

  /** An empty document gives white at half alpha, bottom-right, 20.0, and the literal default text. */
  lemma EmptyDocumentDefaults()
    ensures ConfigFromFields(EMPTY_DOCUMENT)
         == CopyrightConfig(DEFAULT_TEXT, "/path/to/default/font.ttf", F32(0x41A0_0000), BottomRight,
                            ColorConfig(255, 255, 255, 128))
  {
  }

  /** An absent colour table and an empty one give the same colour. */
  lemma ColorDefaultsAgree()
    ensures ConfigFromFields(EMPTY_DOCUMENT.(color := Some(EMPTY_COLOR))) == ConfigFromFields(EMPTY_DOCUMENT)
  {
  }

  /** A document that gives every field is taken as written. */
  lemma CompleteDocumentKept(c: CopyrightConfig)
    ensures ConfigFromFields(FieldsOf(c)) == c
  {
  }

  /**
   * Each field of the result depends on that field of the document alone:
   * two documents that agree on a field, or on one component of their colour
   * tables, agree on it in the result, whatever the other fields say.
   */
  lemma FieldsIndependent(f: ConfigFields, g: ConfigFields)
    ensures f.text == g.text ==> ConfigFromFields(f).text == ConfigFromFields(g).text
    ensures f.fontPath == g.fontPath ==> ConfigFromFields(f).fontPath == ConfigFromFields(g).fontPath
    ensures f.fontSize == g.fontSize ==> ConfigFromFields(f).fontSize == ConfigFromFields(g).fontSize
    ensures f.position == g.position ==> ConfigFromFields(f).position == ConfigFromFields(g).position
    ensures f.color == g.color ==> ConfigFromFields(f).color == ConfigFromFields(g).color
    ensures f.color.Some? && g.color.Some? ==>
      && (f.color.value.r == g.color.value.r ==> ConfigFromFields(f).color.r == ConfigFromFields(g).color.r)
      && (f.color.value.g == g.color.value.g ==> ConfigFromFields(f).color.g == ConfigFromFields(g).color.g)
      && (f.color.value.b == g.color.value.b ==> ConfigFromFields(f).color.b == ConfigFromFields(g).color.b)
      && (f.color.value.a == g.color.value.a ==> ConfigFromFields(f).color.a == ConfigFromFields(g).color.a)
  {
  }

  /**
   * The two leading characters of the default text are the two UTF-8 bytes of
   * `©` (U+00A9), each read as one character.
   */
  lemma DefaultTextIsUtf8Bytes()
    ensures |DEFAULT_TEXT| == 12
    ensures DEFAULT_TEXT[0] as int == 0xC0 + 0xA9 / 64 && DEFAULT_TEXT[1] as int == 0x80 + 0xA9 % 64
    ensures DEFAULT_TEXT[2..] == " Copyright"
  {
  }

  // ---------------------------------------------------------------------
  // Anchor tokens
  // ---------------------------------------------------------------------

  /** The token a document writes for each anchor. */
  function PositionToken(p: Position): string
  {
    match p
    case TopLeft => "top_left"
    case TopCenter => "top_center"
    case TopRight => "top_right"
    case MiddleLeft => "middle_left"
    case MiddleCenter => "middle_center"
    case MiddleRight => "middle_right"
    case BottomLeft => "bottom_left"
    case BottomCenter => "bottom_center"
    case BottomRight => "bottom_right"
  }

  /**
   * The anchor a token names; `None` for any other text, which the document
   * parser rejects. Only the nine tokens parse, each to the anchor that
   * writes it.
   */
  function ParsePosition(token: string): (p: Option<Position>)
    ensures p.Some? ==> PositionToken(p.value) == token
  {
    if token == "top_left" then Some(TopLeft)
    else if token == "top_center" then Some(TopCenter)
    else if token == "top_right" then Some(TopRight)
    else if token == "middle_left" then Some(MiddleLeft)
    else if token == "middle_center" then Some(MiddleCenter)
    else if token == "middle_right" then Some(MiddleRight)
    else if token == "bottom_left" then Some(BottomLeft)
    else if token == "bottom_center" then Some(BottomCenter)
    else if token == "bottom_right" then Some(BottomRight)
    else None
  }

  /** Every anchor's token parses back to that anchor, so different anchors write different tokens. */
  lemma TokenRoundTrip(p: Position)
    ensures ParsePosition(PositionToken(p)) == Some(p)
  {
  }

  /** Tokens are case-sensitive: the anchor names themselves are not tokens. */
  lemma TokensAreSnakeCase()
    ensures ParsePosition("BottomRight") == None && ParsePosition("Bottom_Right") == None
  {
  }
}
