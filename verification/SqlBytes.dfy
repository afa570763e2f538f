/** Where the tokens of a text stand in its UTF-8 bytes. */
module SqlBytes {
  import opened SqlLexer
  import opened SqlLexerLaws

  /** The length of a character in UTF-8 (section 3 of RFC 3629). */
  function Utf8Length(c: char): nat {
    if c as int < 0x80 then 1 else if c as int < 0x800 then 2 else if c as int < 0x1_0000 then 3 else 4
  }

  function Bytes(s: string): nat { if s == [] then 0 else Bytes(s[..|s| - 1]) + Utf8Length(s[|s| - 1]) }

  /** A token that no reader takes is one character, and counted as one byte. */
  predicate IsUnknown(t: Token) { t.kind.Partial? && |t.text| == 1 }

  function ByteStart(t: Token, input: string): nat
    requires t.start <= |input|
  {
    Bytes(input[..t.start])
  }

  function ByteEnd(t: Token, input: string): nat
    requires t.start <= |input| && t.end <= |input|
  {
    if IsUnknown(t) then ByteStart(t, input) + 1 else Bytes(input[..t.end])
  }

  /** The byte ranges of `tokens` cover the text from `at` to its end, gapless. */
  predicate TilesBytes(tokens: seq<Token>, input: string, at: nat)
    decreases |tokens|
  {
    if tokens == [] then at == Bytes(input)
    else
      && tokens[0].start <= |input| && tokens[0].end <= |input|
      && ByteStart(tokens[0], input) == at
      && TilesBytes(tokens[1..], input, ByteEnd(tokens[0], input))
  }

  predicate Narrow(t: Token) { IsUnknown(t) ==> Utf8Length(t.text[0]) == 1 }

  /** A single unknown character takes its own bytes. */
  lemma UnknownBytes(t: Token, input: string)
    requires t.start < t.end <= |input| && TextIsSlice(t, input) && IsUnknown(t)
    ensures t.end == t.start + 1 && Bytes(input[..t.end]) == ByteStart(t, input) + Utf8Length(t.text[0])
  {
    assert |input[t.start..t.end]| == t.end - t.start;
    assert input[..t.end][..t.start] == input[..t.start];
    assert t.text[0] == input[t.start..t.end][0] == input[t.start];
  }

  lemma {:induction false} TilesBytesIff(tokens: seq<Token>, input: string, at: nat)
    requires at <= |input| && Tiles(tokens, input, at)
    ensures TilesBytes(tokens, input, Bytes(input[..at])) <==> forall i | 0 <= i < |tokens| :: Narrow(tokens[i])
    decreases |tokens|
  {
    hide Bytes;
    hide Utf8Length;
    hide TextIsSlice;
    if tokens == [] {
      assert input[..at] == input;
    } else {
      var t, rest := tokens[0], tokens[1..];
      TilesBytesIff(rest, input, t.end);
      assert forall i | 0 < i < |tokens| :: tokens[i] == rest[i - 1];
      if IsUnknown(t) {
        UnknownBytes(t, input);
        if Narrow(t) {
          assert ByteEnd(t, input) == Bytes(input[..t.end]);
        } else {
          assert ByteEnd(t, input) != Bytes(input[..t.end]);
          WrongStart(rest, input, t.end, ByteEnd(t, input));
        }
      }
    }
  }

  /** Character tiling fixes where byte tiling has to go on. */
  lemma WrongStart(tokens: seq<Token>, input: string, at: nat, bytes: nat)
    requires at <= |input| && Tiles(tokens, input, at) && bytes != Bytes(input[..at])
    ensures !TilesBytes(tokens, input, bytes)
  {
    hide Bytes;
    hide TextIsSlice;
    if tokens == [] {
      assert input[..at] == input;
    }
  }

  /** The byte ranges tile the text exactly when every character that no reader takes is
      a single byte. */
  lemma ByteRangesTileIff(input: string)
    ensures var tokens := TokensFrom(input, 0);
            TilesBytes(tokens, input, 0) <==> forall i | 0 <= i < |tokens| :: Narrow(tokens[i])
  {
    hide TokensFrom;
    hide Narrow;
    TokensTile(input, 0);
    assert input[0..] == input && input[..0] == [];
    TilesBytesIff(TokensFrom(input, 0), input, 0);
  }
}
