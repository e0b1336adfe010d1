// The decoder against an encoder: writing each letter as its code and each
// word space as '/', the pieces separated by single spaces, is undone by
// decode_morse_message. The source has no encoder; it serves here as the
// reference the decoder is checked against, and gives the program's example
// input.

module MorseRoundTrip {
  import opened Morse

  /** A table the decoder can invert: every code is a token of one to seven
      dots and dashes, and looks up to its own entry's letter. */
  predicate Decodable(table: seq<MorseCode>) {
    forall i | 0 <= i < |table| ::
      0 < |table[i].morse| <= MAX_TOKEN_LENGTH &&
      (forall k | 0 <= k < |table[i].morse| :: IsSymbol(table[i].morse[k])) &&
      Lookup(table, table[i].morse) == table[i].letter
  }

  /** The program's table can be inverted. */
  lemma TableDecodable()
    ensures Decodable(MORSE_TABLE)
  {
    TableShape();
    TableSymbols();
    forall i | 0 <= i < |MORSE_TABLE| ensures Lookup(MORSE_TABLE, MORSE_TABLE[i].morse) == MORSE_TABLE[i].letter {
      LookupRoundTrip(i);
    }
  }

  /** `piece` spells `x`: it is '/' and `x` a word space, or it is the code of
      the table's entry `i` and `x` that entry's letter. */
  predicate SpellsAt(table: seq<MorseCode>, piece: string, x: char, i: int) {
    (i == -1 && piece == [WORD_SEPARATOR] && x == SPACE) ||
    (0 <= i < |table| && piece == table[i].morse && x == table[i].letter)
  }

  predicate Spells(table: seq<MorseCode>, piece: string, x: char) {
    exists i | -1 <= i < |table| :: SpellsAt(table, piece, x, i)
  }

  /** A piece the decoder cuts whole: one to seven characters, none a space. */
  predicate Cuttable(piece: string) {
    0 < |piece| <= MAX_TOKEN_LENGTH && forall k | 0 <= k < |piece| :: piece[k] != SPACE
  }

  /** A spelling piece is cut whole, and what it is cut as emits its
      character. */
  lemma {:induction false} SpellsShape(table: seq<MorseCode>, piece: string, x: char)
    requires Decodable(table) && Spells(table, piece, x)
    ensures Cuttable(piece)
    ensures Emit(table, AsToken(piece)) == [x]
  {
    var i :| -1 <= i < |table| && SpellsAt(table, piece, x, i);
    if i >= 0 {
      assert forall k | 0 <= k < |piece| :: IsSymbol(piece[k]);
      assert piece[0] != WORD_SEPARATOR by {
        assert IsSymbol(piece[0]);
      }
    }
  }

  /** The token a cuttable piece is cut as when at most one space follows it:
      a separator when it starts with '/', else its code, not ending a word. */
  function AsToken(piece: string): Token {
    if |piece| > 0 && piece[0] == WORD_SEPARATOR then Separator else Code(piece, false)
  }

  /** The tokens the pieces are cut as, in order. */
  function AsTokens(pieces: seq<string>): seq<Token>
    decreases |pieces|
  {
    if pieces == [] then [] else [AsToken(pieces[0])] + AsTokens(pieces[1..])
  }

  /** Pieces separated by single spaces. */
  function Join(pieces: seq<string>): string
    decreases |pieces|
  {
    if |pieces| == 0 then []
    else if |pieces| == 1 then pieces[0]
    else pieces[0] + [SPACE] + Join(pieces[1..])
  }

  lemma {:induction false} JoinStart(pieces: seq<string>)
    requires |pieces| > 0
    ensures |Join(pieces)| >= |pieces[0]|
    ensures Join(pieces)[..|pieces[0]|] == pieces[0]
  {
  }

  /** Joined pieces, read from position `i` of `s`: the first piece, a
      space, and the rest joined. */
  lemma {:induction false} JoinAt(s: string, i: nat, pieces: seq<string>)
    requires |pieces| > 1 && |pieces[1]| > 0
    requires i <= |s| && s[i..] == Join(pieces)
    ensures i + |pieces[0]| + 1 < |s|
    ensures s[i..i + |pieces[0]|] == pieces[0] && s[i + |pieces[0]|] == SPACE
    ensures s[i + |pieces[0]| + 1..] == Join(pieces[1..])
    ensures s[i + |pieces[0]| + 1] == pieces[1][0]
  {
    var n := |pieces[0]|;
    var rest := Join(pieces[1..]);
    assert s[i..] == pieces[0] + [SPACE] + rest;
    JoinStart(pieces[1..]);
    assert s[i..i + n] == s[i..][..n];
    assert s[i + n] == s[i..][n];
    assert s[i + n + 1..] == s[i..][n + 1..];
    assert rest[0] == rest[..|pieces[1]|][0];
  }

  /** A cuttable piece at position `i`, followed by the end or by one space,
      is cut whole, as the token it stands for. */
  lemma {:induction false} PieceCut(s: string, i: nat, piece: string)
    requires Cuttable(piece)
    requires i + |piece| <= |s| && s[i..i + |piece|] == piece
    requires i + |piece| == |s| || s[i + |piece|] == SPACE
    requires SpacesAt(s, i + |piece|) <= 1
    ensures TokenAt(s, i, MAX_TOKEN_LENGTH) == |piece|
    ensures s[i] != SPACE && TokenOf(s, i, |piece|) == AsToken(piece)
  {
    assert forall k | i <= k < i + |piece| :: s[k] == s[i..i + |piece|][k - i];
    TokenAtIs(s, i, |piece|);
    assert s[i] == piece[0];
  }

  /** The pieces lie in `s` from position `i` on, each followed by one space
      except the last, which ends `s`. */
  predicate Laid(s: string, i: nat, pieces: seq<string>)
    decreases |pieces|
  {
    if |pieces| == 0 then i == |s|
    else
      var j := i + |pieces[0]|;
      j <= |s| && s[i..j] == pieces[0] &&
      if |pieces| == 1 then j == |s|
      else j < |s| && s[j] == SPACE && Laid(s, j + 1, pieces[1..])
  }

  /** Joined non-empty pieces lie in a string that reads as their join. */
  lemma {:induction false} JoinLaid(s: string, i: nat, pieces: seq<string>)
    requires forall k | 0 <= k < |pieces| :: |pieces[k]| > 0
    requires i <= |s| && s[i..] == Join(pieces)
    ensures Laid(s, i, pieces)
    decreases |pieces|
  {
    if |pieces| == 0 {
      assert i == |s|;
    } else if |pieces| == 1 {
      assert s[i..i + |pieces[0]|] == s[i..];
    } else {
      JoinAt(s, i, pieces);
      assert forall k | 0 <= k < |pieces[1..]| :: pieces[1..][k] == pieces[k + 1];
      JoinLaid(s, i + |pieces[0]| + 1, pieces[1..]);
    }
  }

  /** From position `i` on, `s` is cut as the pieces' tokens: each piece is
      cut whole, as its token, and is followed by one space, except the
      last, which ends `s`. */
  predicate CutAs(s: string, i: nat, pieces: seq<string>)
    decreases |pieces|
  {
    i <= |s| &&
    if |pieces| == 0 then i == |s|
    else
      var n := |pieces[0]|;
      0 < n && i + n <= |s| && s[i] != SPACE &&
      TokenAt(s, i, MAX_TOKEN_LENGTH) == n && TokenOf(s, i, n) == AsToken(pieces[0]) &&
      if |pieces| == 1 then i + n == |s|
      else i + n < |s| && s[i + n] == SPACE && CutAs(s, i + n + 1, pieces[1..])
  }

  /** Cuttable pieces that lie in `s` are cut as their tokens. */
  lemma {:induction false} LaidCut(s: string, i: nat, pieces: seq<string>)
    requires forall k | 0 <= k < |pieces| :: Cuttable(pieces[k])
    requires Laid(s, i, pieces)
    ensures CutAs(s, i, pieces)
    decreases |pieces|
  {
    if |pieces| == 1 {
      PieceCut(s, i, pieces[0]);
    } else if |pieces| > 1 {
      CuttableTail(pieces);
      LaidCut(s, i + |pieces[0]| + 1, pieces[1..]);
      LaidCutStep(s, i, pieces);
    }
  }

  /** The step of that induction: the first piece is cut whole when the
      rest are. */
  lemma {:induction false} LaidCutStep(s: string, i: nat, pieces: seq<string>)
    requires |pieces| > 1 && Cuttable(pieces[0]) && Cuttable(pieces[1])
    requires Laid(s, i, pieces) && CutAs(s, i + |pieces[0]| + 1, pieces[1..])
    ensures CutAs(s, i, pieces)
  {
    LaidNext(s, i, pieces);
    SpacesAtIs(s, i + |pieces[0]|, 1);
    PieceCut(s, i, pieces[0]);
  }

  /** The piece after a space starts with a symbol. */
  lemma {:induction false} LaidNext(s: string, i: nat, pieces: seq<string>)
    requires |pieces| > 1 && Cuttable(pieces[1]) && Laid(s, i, pieces)
    ensures i + |pieces[0]| + 1 < |s| && s[i + |pieces[0]| + 1] != SPACE
  {
    var j := i + |pieces[0]| + 1;
    assert Laid(s, j, pieces[1..]) && pieces[1..][0] == pieces[1];
    assert s[j..j + |pieces[1]|] == pieces[1];
    assert s[j] == pieces[1][0];
  }

  /** A string cut as the pieces' tokens has those tokens. */
  lemma {:induction false} TokensCut(s: string, i: nat, pieces: seq<string>)
    requires CutAs(s, i, pieces)
    ensures TokensFrom(s, i) == AsTokens(pieces)
    decreases |pieces|
  {
    if |pieces| == 1 {
      TokenStep(s, i);
      assert AsTokens(pieces) == [AsToken(pieces[0])] + AsTokens([]);
    } else if |pieces| > 1 {
      TokensCut(s, i + |pieces[0]| + 1, pieces[1..]);
      TokenStep(s, i);
      SkipSpaces(s, i + |pieces[0]|, 1);
    }
  }

  /** The tail of cuttable pieces is cuttable. */
  lemma {:induction false} CuttableTail(pieces: seq<string>)
    requires |pieces| > 0 && forall k | 0 <= k < |pieces| :: Cuttable(pieces[k])
    ensures forall k | 0 <= k < |pieces[1..]| :: Cuttable(pieces[1..][k])
  {
    assert forall k | 0 <= k < |pieces[1..]| :: pieces[1..][k] == pieces[k + 1];
  }

  /** The pieces after the first spell the characters after the first. */
  lemma {:induction false} TailSpells(table: seq<MorseCode>, pieces: seq<string>, msg: string)
    requires |pieces| == |msg| > 0
    requires forall k | 0 <= k < |msg| :: Spells(table, pieces[k], msg[k])
    ensures forall k | 0 <= k < |msg[1..]| :: Spells(table, pieces[1..][k], msg[1..][k])
  {
    assert forall k | 0 <= k < |msg[1..]| :: pieces[1..][k] == pieces[k + 1] && msg[1..][k] == msg[k + 1];
  }

  /** The tokens of pieces spelling the characters of `msg` emit `msg`. */
  lemma {:induction false} EmitSpelled(table: seq<MorseCode>, pieces: seq<string>, msg: string)
    requires Decodable(table) && |pieces| == |msg|
    requires forall k | 0 <= k < |msg| :: Spells(table, pieces[k], msg[k])
    ensures EmitAll(table, AsTokens(pieces)) == msg
    decreases |msg|
  {
    if |msg| > 0 {
      SpellsShape(table, pieces[0], msg[0]);
      EmitCons(table, AsToken(pieces[0]), AsTokens(pieces[1..]));
      TailSpells(table, pieces, msg);
      EmitSpelled(table, pieces[1..], msg[1..]);
      assert [msg[0]] + msg[1..] == msg;
    }
  }

  /** Pieces spelling the characters of `msg`, joined by single spaces, decode
      to `msg`. */
  lemma {:induction false} DecodeJoin(table: seq<MorseCode>, pieces: seq<string>, msg: string)
    requires Decodable(table) && |pieces| == |msg|
    requires forall k | 0 <= k < |msg| :: Spells(table, pieces[k], msg[k])
    ensures Decode(table, Join(pieces)) == msg
  {
    var s := Join(pieces);
    forall k | 0 <= k < |pieces| ensures Cuttable(pieces[k]) {
      SpellsShape(table, pieces[k], msg[k]);
    }
    assert s[0..] == s;
    JoinLaid(s, 0, pieces);
    LaidCut(s, 0, pieces);
    TokensCut(s, 0, pieces);
    EmitSpelled(table, pieces, msg);
  }

  /** Every character of `msg` is a word space or a letter of the table. */
  predicate Encodable(table: seq<MorseCode>, msg: string) {
    forall k | 0 <= k < |msg| :: msg[k] == SPACE || IsLetter(table, msg[k])
  }

  /** The index of the first entry from `i` on whose letter is `c`, or the
      table's size when there is none. */
  function LetterIndex(table: seq<MorseCode>, c: char, i: nat): (r: nat)
    requires i <= |table|
    ensures i <= r <= |table|
    ensures r < |table| ==> table[r].letter == c
    ensures forall j | i <= j < r :: table[j].letter != c
    decreases |table| - i
  {
    if i == |table| || table[i].letter == c then i else LetterIndex(table, c, i + 1)
  }

  /** What the encoder writes for one character: '/' for a word space, else
      the code of the first entry with that letter. */
  function Piece(table: seq<MorseCode>, c: char): string {
    if c == SPACE then [WORD_SEPARATOR]
    else
      var r := LetterIndex(table, c, 0);
      if r < |table| then table[r].morse else []
  }

  /** The encoder: the pieces of the characters, separated by single spaces. */
  function Encode(table: seq<MorseCode>, msg: string): string {
    Join(seq(|msg|, k requires 0 <= k < |msg| => Piece(table, msg[k])))
  }

  /** The piece of an encodable character spells it. */
  lemma {:induction false} PieceSpells(table: seq<MorseCode>, c: char)
    requires c == SPACE || IsLetter(table, c)
    ensures Spells(table, Piece(table, c), c)
  {
    if c == SPACE {
      assert SpellsAt(table, Piece(table, c), c, -1);
    } else {
      var r := LetterIndex(table, c, 0);
      var j :| 0 <= j < |table| && table[j].letter == c;
      assert SpellsAt(table, Piece(table, c), c, r);
    }
  }

  /** Decoding undoes encoding. */
  lemma {:induction false} DecodeEncode(table: seq<MorseCode>, msg: string)
    requires Decodable(table) && Encodable(table, msg)
    ensures Decode(table, Encode(table, msg)) == msg
  {
    var pieces := seq(|msg|, k requires 0 <= k < |msg| => Piece(table, msg[k]));
    forall k | 0 <= k < |msg| ensures Spells(table, pieces[k], msg[k]) {
      PieceSpells(table, msg[k]);
    }
    DecodeJoin(table, pieces, msg);
  }

  /** The program's example input joins the codes of H, E, L, L and O. */
  lemma HelloJoin()
    ensures Join(["....", ".", ".-..", ".-..", "---"]) == ".... . .-.. .-.. ---"
  {
  }

  /** Those codes spell "HELLO". */
  lemma HelloSpells()
    ensures forall k | 0 <= k < 5 :: Spells(MORSE_TABLE, ["....", ".", ".-..", ".-..", "---"][k], "HELLO"[k])
  {
    var t := MORSE_TABLE;
    assert SpellsAt(t, "....", 'H', 7) && SpellsAt(t, ".", 'E', 4);
    assert SpellsAt(t, ".-..", 'L', 11) && SpellsAt(t, "---", 'O', 14);
  }

  /** The program's example input decodes to "HELLO". */
  lemma HelloExample()
    ensures Decode(MORSE_TABLE, ".... . .-.. .-.. ---") == "HELLO"
  {
    HelloJoin();
    HelloSpells();
    TableDecodable();
    DecodeJoin(MORSE_TABLE, ["....", ".", ".-..", ".-..", "---"], "HELLO");
  }

  /** main: decodes the example input into a 128-byte buffer. */
  method ExampleMessage() returns (decoded: string)
    ensures decoded == "HELLO"
  {
    var morse: string := ".... . .-.. .-.. ---";
    var input := new char[|morse| + 1](k => if 0 <= k < |morse| then morse[k] else NUL);
    var output := new char[128];
    assert Holds(input, morse);
    HelloExample();
    TableWellFormed();
    DecodeMorseMessage(MORSE_TABLE, input, morse, output);
    decoded := output[..5];
  }
}
