/**
 * Bearer tokens (crates/ciphr-crypto/src/token.rs). Token text is modelled with one `char` per byte
 * of its UTF-8 form; a byte of 0x80 to 0xBF continues a character.
 */
module Token {
  import opened Basics
  import Base64Url

  const PREFIX := "cph_"
  const ID_LEN := 6
  const SECRET_LEN := 32
  const TEXT_LEN := 4 + 8 + 43

  type TokenId = b: seq<byte> | |b| == ID_LEN witness [0, 0, 0, 0, 0, 0]
  type Secret = b: seq<byte> | |b| == SECRET_LEN witness seq(SECRET_LEN, _ => 0)
  datatype Token = Token(id: TokenId, secret: Secret)

  /** `Panics` is the process aborting inside the string split, not an answer. */
  datatype ParseOutcome = Parsed(token: Token) | TokenFormat | Panics

  predicate ContinuesCharacter(c: char) {
    '\U{80}' <= c <= '\U{BF}'
  }

  function ParseId(text: string): Option<TokenId> {
    match Base64Url.DecodedExactly(text, ID_LEN)
    case Ok(bytes) => Some(bytes)
    case Err(_) => None
  }

  function Parse(text: string): ParseOutcome {
    if |text| != TEXT_LEN || !(PREFIX <= text) then TokenFormat
    else
      var body := text[4..];
      if ContinuesCharacter(body[8]) then Panics
      else
        match (ParseId(body[..8]), Base64Url.DecodedExactly(body[8..], SECRET_LEN))
        case (Some(id), Ok(secret)) => Parsed(Token(id, secret))
        case _ => TokenFormat
  }

  /** The text is assembled in one buffer, part by part. */
  method ExposeText(token: Token) returns (text: string)
    ensures |text| == TEXT_LEN
    ensures forall other: string :: Parse(other) == Parsed(token) <==> other == text
  {
    text := PREFIX;
    text := Base64Url.EncodeInto(token.id, text);
    text := Base64Url.EncodeInto(token.secret, text);
    TextLength(token);
    assert text == Text(token);
    forall other: string
      ensures Parse(other) == Parsed(token) <==> other == text
    {
      OneTextPerToken(token, other);
    }
  }

  function Text(token: Token): string {
    PREFIX + Base64Url.Encoded(token.id) + Base64Url.Encoded(token.secret)
  }

  lemma TextLength(token: Token)
    ensures |Base64Url.Encoded(token.id)| == 8 && |Base64Url.Encoded(token.secret)| == 43
    ensures |Text(token)| == TEXT_LEN
  {
    Base64Url.EncodedLenIsExact(token.id);
    Base64Url.EncodedLenIsExact(token.secret);
  }

  lemma SecretStartsWithAlphabet(secret: Secret)
    ensures |Base64Url.Encoded(secret)| == 43
    ensures !ContinuesCharacter(Base64Url.Encoded(secret)[0])
  {
    Base64Url.EncodedLenIsExact(secret);
    Base64Url.EncodedSplits(secret, 3);
    assert Base64Url.Encoded(secret)[0] == Base64Url.EncodedGroup(secret[..3])[0];
  }

  /** A text of the right length and prefix parses to the token exactly if its two parts encode the token's. */
  lemma PartsDecide(token: Token, text: string, first: string, second: string)
    requires |text| == TEXT_LEN && PREFIX <= text && first == text[4..][..8] && second == text[4..][8..]
    requires second == Base64Url.Encoded(token.secret) ==> !ContinuesCharacter(second[0])
    ensures Parse(text) == Parsed(token) <==>
            first == Base64Url.Encoded(token.id) && second == Base64Url.Encoded(token.secret)
  {
    Base64Url.AcceptedIffEncoding(first, token.id);
    Base64Url.AcceptedIffEncoding(second, token.secret);
  }

  /** The text of a token taken apart. */
  lemma PartsOfText(token: Token, text: string, first: string, second: string)
    requires |text| == TEXT_LEN && PREFIX <= text && first == text[4..][..8] && second == text[4..][8..]
    requires |Base64Url.Encoded(token.id)| == 8
    ensures text == Text(token) <==>
            first == Base64Url.Encoded(token.id) && second == Base64Url.Encoded(token.secret)
  {
    assert text == PREFIX + first + second;
  }

  /** Each token has exactly one accepted text, and it is the one that is handed out. */
  lemma OneTextPerToken(token: Token, text: string)
    ensures Parse(text) == Parsed(token) <==> text == Text(token)
  {
    TextLength(token);
    SecretStartsWithAlphabet(token.secret);
    if |text| == TEXT_LEN && PREFIX <= text {
      var first, second := text[4..][..8], text[4..][8..];
      PartsDecide(token, text, first, second);
      PartsOfText(token, text, first, second);
    } else {
      TextHasForm(token);
    }
  }

  lemma TextHasForm(token: Token)
    ensures |Text(token)| == TEXT_LEN && PREFIX <= Text(token)
  {
    TextLength(token);
  }

  /** That text is the prefix and the base64url of the two parts. */
  lemma AcceptedTextIs(token: Token, text: string)
    ensures Parse(text) == Parsed(token) <==>
            text == "cph_" + Base64Url.Encoded(token.id) + Base64Url.Encoded(token.secret)
  {
    OneTextPerToken(token, text);
    TextIs(token);
  }

  lemma TextIs(token: Token)
    ensures Text(token) == "cph_" + Base64Url.Encoded(token.id) + Base64Url.Encoded(token.secret)
  {
  }

  /**
   * Parsing is meant to answer every input. It does unless a text of the right length and prefix
   * has a character that straddles the boundary between the two halves.
   */
  lemma ParseAnswersIff(text: string)
    ensures Parse(text) != Panics
       <==> !(|text| == TEXT_LEN && PREFIX <= text && ContinuesCharacter(text[12]))
  {
  }

  lemma ParseCanFailToAnswer()
    ensures exists text: string :: Parse(text) == Panics
  {
    var text := PREFIX + seq(7, _ => 'A') + ['\U{C3}', '\U{A9}'] + seq(42, _ => 'A');
    assert |text| == TEXT_LEN && PREFIX <= text && text[12] == '\U{A9}';
    assert Parse(text) == Panics;
  }
}
