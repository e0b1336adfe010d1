// A model of the Morse-code decoder of instr/morse/morse.c: the code table,
// the C-string helpers, the table lookup and the tokenizing decoder.
//
// Characters are Dafny `char`s; the source handles 8-bit `char`s (unsigned on
// RISC-V), and for those the two agree. A C string is a buffer holding a NUL;
// its characters are the ones before the first NUL (`CString`).
//
// The source's `morseTable` is a global constant; the lookup and the decoder
// here take the table they search as a parameter (the program passes
// `MORSE_TABLE`), so that their proofs hold for every table of the same shape.

module Morse {

  /** One entry of `morseTable`: a letter or figure and its dot/dash code. */
  datatype MorseCode = MorseCode(letter: char, morse: string)

  /** The International Morse Code letters and figures, in the order of the
      source's table. */
  const MORSE_TABLE: seq<MorseCode> := [
    MorseCode('A', ".-"),    MorseCode('B', "-..."),  MorseCode('C', "-.-."),  MorseCode('D', "-.."),
    MorseCode('E', "."),     MorseCode('F', "..-."),  MorseCode('G', "--."),   MorseCode('H', "...."),
    MorseCode('I', ".."),    MorseCode('J', ".---"),  MorseCode('K', "-.-"),   MorseCode('L', ".-.."),
    MorseCode('M', "--"),    MorseCode('N', "-."),    MorseCode('O', "---"),   MorseCode('P', ".--."),
    MorseCode('Q', "--.-"),  MorseCode('R', ".-."),   MorseCode('S', "..."),   MorseCode('T', "-"),
    MorseCode('U', "..-"),   MorseCode('V', "...-"),  MorseCode('W', ".--"),   MorseCode('X', "-..-"),
    MorseCode('Y', "-.--"),  MorseCode('Z', "--.."),  MorseCode('0', "-----"), MorseCode('1', ".----"),
    MorseCode('2', "..---"), MorseCode('3', "...--"), MorseCode('4', "....-"), MorseCode('5', "....."),
    MorseCode('6', "-...."), MorseCode('7', "--..."), MorseCode('8', "---.."), MorseCode('9', "----.")]

  const MORSE_TABLE_SIZE: nat := 36
  /** Each code is stored in a `char morse[6]` slot, padded with NULs. */
  const CODE_SLOT_SIZE: nat := 6
  /** The decoder's `char token[8]`: at most seven characters and a NUL. */
  const TOKEN_BUFFER_SIZE: nat := 8
  const MAX_TOKEN_LENGTH: nat := 7

  const NUL: char := '\0'
  const SPACE: char := ' '
  const WORD_SEPARATOR: char := '/'
  const UNKNOWN: char := '?'

  predicate IsSymbol(c: char) { c == '.' || c == '-' }

  /** `c` is the letter of some entry of `table`. */
  predicate IsLetter(table: seq<MorseCode>, c: char) {
    exists i | 0 <= i < |table| :: table[i].letter == c
  }

  /** `code` is the code of some entry of `table`. */
  predicate IsCode(table: seq<MorseCode>, code: string) {
    exists i | 0 <= i < |table| :: table[i].morse == code
  }

  /** What the decoder may write before the terminating NUL. */
  predicate IsOutputChar(table: seq<MorseCode>, c: char) {
    c == SPACE || c == UNKNOWN || IsLetter(table, c)
  }

  /** A table of the shape `morseTable` has: 36 entries, each code a C string
      that fits its 6-byte slot with its NUL. */
  predicate WellFormed(table: seq<MorseCode>) {
    |table| == MORSE_TABLE_SIZE &&
    forall i | 0 <= i < |table| :: |table[i].morse| < CODE_SLOT_SIZE && NulFree(table[i].morse)
  }

  // ---------------------------------------------------------------------
  // The table

  /** The table has 36 entries; every code is one to five characters long (so
      it fits its 6-byte slot with a NUL); no letter is '?' or ' '. */
  lemma TableShape()
    ensures |MORSE_TABLE| == MORSE_TABLE_SIZE
    ensures forall i | 0 <= i < |MORSE_TABLE| :: 1 <= |MORSE_TABLE[i].morse| < CODE_SLOT_SIZE
    ensures forall i | 0 <= i < |MORSE_TABLE| ::
      MORSE_TABLE[i].letter != UNKNOWN && MORSE_TABLE[i].letter != SPACE
  {
  }

  /** Every code is made of dots and dashes only. */
  lemma TableSymbols()
    ensures forall i | 0 <= i < |MORSE_TABLE| ::
      forall k | 0 <= k < |MORSE_TABLE[i].morse| :: IsSymbol(MORSE_TABLE[i].morse[k])
  {
  }

  /** The program's table has the shape morseToChar relies on. */
  lemma TableWellFormed()
    ensures WellFormed(MORSE_TABLE)
  {
    TableShape();
    TableSymbols();
    forall i | 0 <= i < |MORSE_TABLE| ensures NulFree(MORSE_TABLE[i].morse) {
      forall k | 0 <= k < |MORSE_TABLE[i].morse| ensures MORSE_TABLE[i].morse[k] != NUL {
        assert IsSymbol(MORSE_TABLE[i].morse[k]);
      }
    }
  }

  // The 36 codes are pairwise distinct; the proof is cut by the first index.
  lemma CodesDistinctFrom0()
    ensures forall i, j | 0 <= i < 6 && i < j < |MORSE_TABLE| :: MORSE_TABLE[i].morse != MORSE_TABLE[j].morse
  {
  }

  lemma CodesDistinctFrom6()
    ensures forall i, j | 6 <= i < 12 && i < j < |MORSE_TABLE| :: MORSE_TABLE[i].morse != MORSE_TABLE[j].morse
  {
  }

  lemma CodesDistinctFrom12()
    ensures forall i, j | 12 <= i < 18 && i < j < |MORSE_TABLE| :: MORSE_TABLE[i].morse != MORSE_TABLE[j].morse
  {
  }

  lemma CodesDistinctFrom18()
    ensures forall i, j | 18 <= i < 36 && i < j < |MORSE_TABLE| :: MORSE_TABLE[i].morse != MORSE_TABLE[j].morse
  {
  }

  /** The 36 codes are pairwise distinct. */
  lemma {:induction false} CodesDistinct(i: nat, j: nat)
    requires i < |MORSE_TABLE| && j < |MORSE_TABLE| && i != j
    ensures MORSE_TABLE[i].morse != MORSE_TABLE[j].morse
  {
    var lo, hi := if i < j then i else j, if i < j then j else i;
    if lo < 6 {
      CodesDistinctFrom0();
    } else if lo < 12 {
      CodesDistinctFrom6();
    } else if lo < 18 {
      CodesDistinctFrom12();
    } else {
      CodesDistinctFrom18();
    }
    assert MORSE_TABLE[lo].morse != MORSE_TABLE[hi].morse;
  }

  /** The letters are 'A' to 'Z' and then '0' to '9'. */
  lemma TableLetters()
    ensures forall i | 0 <= i < |MORSE_TABLE| ::
      MORSE_TABLE[i].letter == if i < 26 then ('A' as int + i) as char else ('0' as int + i - 26) as char
  {
  }

  /** The 36 letters are pairwise distinct. */
  lemma {:induction false} LettersDistinct(i: nat, j: nat)
    requires i < |MORSE_TABLE| && j < |MORSE_TABLE| && i != j
    ensures MORSE_TABLE[i].letter != MORSE_TABLE[j].letter
  {
    TableLetters();
  }

  // ---------------------------------------------------------------------
  // C strings

  /** The buffer holds a NUL somewhere, so it is a valid C string. */
  predicate HasNul(s: seq<char>) {
    exists k | 0 <= k < |s| :: s[k] == NUL
  }

  /** No character of `s` is NUL. */
  predicate NulFree(s: seq<char>) {
    forall k | 0 <= k < |s| :: s[k] != NUL
  }

  /** The characters of a NUL-terminated buffer: those before its first NUL
      (all of them when it holds none). */
  function CString(s: seq<char>): (r: seq<char>)
    ensures |r| <= |s|
    ensures forall k | 0 <= k < |r| :: r[k] == s[k] && s[k] != NUL
    ensures |r| < |s| ==> s[|r|] == NUL
  {
    if s == [] || s[0] == NUL then [] else [s[0]] + CString(s[1..])
  }

  /** A buffer holding a NUL has a C string that ends before the buffer does. */
  lemma {:induction false} CStringEnds(s: seq<char>)
    requires HasNul(s)
    ensures |CString(s)| < |s| && s[|CString(s)|] == NUL
  {
    var k :| 0 <= k < |s| && s[k] == NUL;
    assert |CString(s)| <= k;
  }

  /** The characters before a NUL, when none of them is NUL, form the C string. */
  lemma {:induction false} CStringBeforeNul(s: seq<char>, k: nat)
    requires k < |s| && s[k] == NUL && NulFree(s[..k])
    ensures CString(s) == s[..k]
  {
    assert forall j | 0 <= j < k :: s[j] == s[..k][j] && s[j] != NUL;
    assert |CString(s)| == k;
  }

  /** my_strlen: the index of the first NUL. */
  method MyStrlen(str: seq<char>) returns (len: int)
    requires HasNul(str)
    ensures 0 <= len < |str| && str[len] == NUL
    ensures forall k | 0 <= k < len :: str[k] != NUL
    ensures len == |CString(str)|
  {
    CStringEnds(str);
    len := 0;
    while str[len] != NUL
      invariant 0 <= len <= |CString(str)|
      invariant forall k | 0 <= k < len :: str[k] != NUL
      decreases |str| - len
    {
      len := len + 1;
    }
  }

  /** The first index at which two strings differ or both hold NUL: where
      my_strcmp stops. */
  function Mismatch(s1: seq<char>, s2: seq<char>): (k: nat)
    ensures k <= |s1| && k <= |s2|
    ensures forall j | 0 <= j < k :: s1[j] == s2[j] && s1[j] != NUL
    ensures k < |s1| && k < |s2| ==> s1[k] != s2[k] || s1[k] == NUL
  {
    if s1 == [] || s2 == [] || s1[0] != s2[0] || s1[0] == NUL then 0
    else 1 + Mismatch(s1[1..], s2[1..])
  }

  /** Two C strings are equal exactly when they agree where they first differ
      or end. */
  lemma {:induction false} MismatchDecides(s1: seq<char>, s2: seq<char>)
    requires HasNul(s1) && HasNul(s2)
    ensures Mismatch(s1, s2) < |s1| && Mismatch(s1, s2) < |s2|
    ensures CString(s1) == CString(s2) <==> s1[Mismatch(s1, s2)] == s2[Mismatch(s1, s2)]
  {
    CStringEnds(s1);
    CStringEnds(s2);
    var k := Mismatch(s1, s2);
    var cs1, cs2 := CString(s1), CString(s2);
    assert k <= |cs1| && k <= |cs2|;
    if s1[k] == s2[k] {
      assert s1[..k] == s2[..k];
      CStringBeforeNul(s1, k);
      CStringBeforeNul(s2, k);
    } else if s1[k] != NUL && s2[k] != NUL {
      assert k < |cs1| && cs1[k] == s1[k];
      assert k < |cs2| && cs2[k] == s2[k];
    } else {
      assert |cs1| != |cs2|;
    }
  }

  /** my_strcmp: the difference of the characters at which the two strings
      first differ (zero when they end together), so zero exactly when the two
      C strings are equal. */
  method MyStrcmp(str1: seq<char>, str2: seq<char>) returns (r: int)
    requires HasNul(str1) && HasNul(str2)
    ensures r == 0 <==> CString(str1) == CString(str2)
    ensures Mismatch(str1, str2) < |str1| && Mismatch(str1, str2) < |str2| &&
      r == str1[Mismatch(str1, str2)] as int - str2[Mismatch(str1, str2)] as int
  {
    MismatchDecides(str1, str2);
    ghost var m := Mismatch(str1, str2);
    var p := 0;
    while true
      invariant 0 <= p <= m
      decreases m - p
    {
      var c1 := str1[p];
      var c2 := str2[p];
      if c1 != c2 {
        assert p == m;
        r := c1 as int - c2 as int;
        return;
      }
      if c1 == NUL {
        assert p == m;
        return 0;
      }
      p := p + 1;
    }
  }

  /** The 6-byte slot a code is stored in. */
  function Slot(code: string): seq<char>
    requires |code| < CODE_SLOT_SIZE
  {
    code + seq(CODE_SLOT_SIZE - |code|, _ => NUL)
  }

  /** A code that fits its slot is the slot's C string. */
  lemma {:induction false} SlotHoldsCode(code: string)
    requires |code| < CODE_SLOT_SIZE && NulFree(code)
    ensures HasNul(Slot(code)) && CString(Slot(code)) == code
  {
    var slot := Slot(code);
    assert slot[|code|] == NUL;
    assert slot[..|code|] == code;
    CStringBeforeNul(slot, |code|);
  }

  // ---------------------------------------------------------------------
  // morseToChar

  /** The search of morseToChar from entry `i` on: the letter of the first
      entry whose code is `code`, or '?' when there is none. */
  function LookupFrom(table: seq<MorseCode>, code: string, i: nat): char
    requires i <= |table|
    decreases |table| - i
  {
    if i == |table| then UNKNOWN
    else if table[i].morse == code then table[i].letter
    else LookupFrom(table, code, i + 1)
  }

  /** The letter morseToChar returns for the characters of a token. */
  function Lookup(table: seq<MorseCode>, code: string): char {
    LookupFrom(table, code, 0)
  }

  /** morseToChar: a linear search of the table, comparing with my_strcmp. */
  method MorseToChar(table: seq<MorseCode>, morse: seq<char>) returns (c: char)
    requires WellFormed(table) && HasNul(morse)
    ensures c == Lookup(table, CString(morse))
  {
    var i := 0;
    while i < MORSE_TABLE_SIZE
      invariant 0 <= i <= MORSE_TABLE_SIZE
      invariant LookupFrom(table, CString(morse), i) == Lookup(table, CString(morse))
    {
      SlotHoldsCode(table[i].morse);
      var cmp := MyStrcmp(morse, Slot(table[i].morse));
      if cmp == 0 {
        return table[i].letter;
      }
      i := i + 1;
    }
    return UNKNOWN;
  }

  lemma {:induction false} LookupFromFinds(i: nat, j: nat)
    requires j <= i < |MORSE_TABLE|
    ensures LookupFrom(MORSE_TABLE, MORSE_TABLE[i].morse, j) == MORSE_TABLE[i].letter
    decreases i - j
  {
    if j < i {
      CodesDistinct(i, j);
      LookupFromFinds(i, j + 1);
    }
  }

  /** Every entry's code looks up to that entry's letter. */
  lemma {:induction false} LookupRoundTrip(i: nat)
    requires i < |MORSE_TABLE|
    ensures Lookup(MORSE_TABLE, MORSE_TABLE[i].morse) == MORSE_TABLE[i].letter
  {
    LookupFromFinds(i, 0);
  }

  lemma {:induction false} LookupFromMisses(table: seq<MorseCode>, code: string, j: nat)
    requires j <= |table|
    requires forall i | j <= i < |table| :: table[i].morse != code
    ensures LookupFrom(table, code, j) == UNKNOWN
    decreases |table| - j
  {
    if j < |table| {
      LookupFromMisses(table, code, j + 1);
    }
  }

  /** The lookup falls back to '?' exactly for the strings that are not codes. */
  lemma {:induction false} LookupFallback(code: string)
    ensures Lookup(MORSE_TABLE, code) == UNKNOWN <==> !IsCode(MORSE_TABLE, code)
  {
    if IsCode(MORSE_TABLE, code) {
      var i :| 0 <= i < |MORSE_TABLE| && MORSE_TABLE[i].morse == code;
      LookupRoundTrip(i);
      TableShape();
    } else {
      LookupFromMisses(MORSE_TABLE, code, 0);
    }
  }

  lemma {:induction false} LookupFromResult(table: seq<MorseCode>, code: string, j: nat)
    requires j <= |table|
    ensures LookupFrom(table, code, j) == UNKNOWN || IsLetter(table, LookupFrom(table, code, j))
    decreases |table| - j
  {
    if j < |table| && table[j].morse != code {
      LookupFromResult(table, code, j + 1);
    }
  }

  /** The lookup yields a letter of the table or '?'. */
  lemma {:induction false} LookupResult(table: seq<MorseCode>, code: string)
    ensures Lookup(table, code) == UNKNOWN || IsLetter(table, Lookup(table, code))
  {
    LookupFromResult(table, code, 0);
  }

  // ---------------------------------------------------------------------
  // decode_morse_message, as a function of the input's characters
  //
  // The decoder advances `in_ptr` through its input; the specification below walks
  // the characters `s` of the input with a position `i` in the same way.

  /** The number of spaces from position `i` on (the `space_count` loop). */
  function SpacesAt(s: string, i: nat): (n: nat)
    requires i <= |s|
    ensures i + n <= |s|
    ensures i + n < |s| ==> s[i + n] != SPACE
    decreases |s| - i
  {
    if i == |s| || s[i] != SPACE then 0 else 1 + SpacesAt(s, i + 1)
  }

  /** The length of the token cut at position `i` when `room` more characters
      fit in the token buffer: the token stops before a space. */
  function TokenAt(s: string, i: nat, room: nat): (n: nat)
    requires i <= |s|
    ensures n <= room && i + n <= |s|
    ensures n < room && i + n < |s| ==> s[i + n] == SPACE
    decreases room
  {
    if room == 0 || i == |s| || s[i] == SPACE then 0 else 1 + TokenAt(s, i + 1, room - 1)
  }

  /** A token the decoder cuts from its input: the word separator, or a code
      together with whether two or more spaces follow it. */
  datatype Token = Separator | Code(code: string, wordEnd: bool)

  /** The token of length `n` at position `i`: a token starting with '/' is a
      separator, whatever follows the '/'. */
  function TokenOf(s: string, i: nat, n: nat): Token
    requires 0 < n && i + n <= |s|
  {
    if s[i] == WORD_SEPARATOR then Separator else Code(s[i..i + n], SpacesAt(s, i + n) > 1)
  }

  /** The tokens the decoder cuts from position `i` on: spaces are skipped one
      at a time, and a token of up to seven non-space characters is cut. */
  function TokensFrom(s: string, i: nat): seq<Token>
    requires i <= |s|
    decreases |s| - i
  {
    if i == |s| then []
    else if s[i] == SPACE then TokensFrom(s, i + 1)
    else
      var n := TokenAt(s, i, MAX_TOKEN_LENGTH);
      assert n > 0;
      [TokenOf(s, i, n)] + TokensFrom(s, i + n)
  }

  /** What one token emits: a space for a separator; otherwise the code's
      letter, and one extra space when the code ends a word. */
  function Emit(table: seq<MorseCode>, t: Token): string {
    match t
    case Separator => [SPACE]
    case Code(code, wordEnd) => [Lookup(table, code)] + (if wordEnd then [SPACE] else [])
  }

  /** What a sequence of tokens emits, one after the other. */
  function EmitAll(table: seq<MorseCode>, ts: seq<Token>): string
    decreases |ts|
  {
    if ts == [] then [] else Emit(table, ts[0]) + EmitAll(table, ts[1..])
  }

  /** The decoder's output for the characters of its input from position `i`
      on. */
  function DecodeFrom(table: seq<MorseCode>, s: string, i: nat): string
    requires i <= |s|
  {
    EmitAll(table, TokensFrom(s, i))
  }

  /** The decoder's output for the characters `s` of its input. */
  function Decode(table: seq<MorseCode>, s: string): string {
    DecodeFrom(table, s, 0)
  }

  /** The three properties that determine a token length also follow from it. */
  lemma {:induction false} TokenAtIs(s: string, i: nat, n: nat)
    requires i + n <= |s| && n <= MAX_TOKEN_LENGTH
    requires forall k | i <= k < i + n :: s[k] != SPACE
    requires n == MAX_TOKEN_LENGTH || i + n == |s| || s[i + n] == SPACE
    ensures TokenAt(s, i, MAX_TOKEN_LENGTH) == n
  {
  }

  /** The same for a run of spaces. */
  lemma {:induction false} SpacesAtIs(s: string, i: nat, n: nat)
    requires i + n <= |s|
    requires forall k | i <= k < i + n :: s[k] == SPACE
    requires i + n == |s| || s[i + n] != SPACE
    ensures SpacesAt(s, i) == n
    decreases n
  {
    if n > 0 {
      SpacesAtIs(s, i + 1, n - 1);
    }
  }

  /** A run of spaces cuts no token. */
  lemma {:induction false} SkipSpaces(s: string, i: nat, n: nat)
    requires i + n <= |s|
    requires forall k | i <= k < i + n :: s[k] == SPACE
    ensures TokensFrom(s, i) == TokensFrom(s, i + n)
    decreases n
  {
    if n > 0 {
      SkipSpaces(s, i + 1, n - 1);
    }
  }

  /** At a non-space the decoder cuts a token ahead of the rest. */
  lemma {:induction false} TokenStep(s: string, i: nat)
    requires i < |s| && s[i] != SPACE
    ensures TokenAt(s, i, MAX_TOKEN_LENGTH) > 0
    ensures TokensFrom(s, i) ==
      [TokenOf(s, i, TokenAt(s, i, MAX_TOKEN_LENGTH))] + TokensFrom(s, i + TokenAt(s, i, MAX_TOKEN_LENGTH))
  {
  }

  /** The first token emits ahead of the rest. */
  lemma {:induction false} EmitCons(table: seq<MorseCode>, t: Token, ts: seq<Token>)
    ensures EmitAll(table, [t] + ts) == Emit(table, t) + EmitAll(table, ts)
  {
    assert ([t] + ts)[1..] == ts;
  }

  /** At a non-space the output starts with what the token cut there emits. */
  lemma {:induction false} DecodeStep(table: seq<MorseCode>, s: string, i: nat)
    requires i < |s| && s[i] != SPACE
    ensures TokenAt(s, i, MAX_TOKEN_LENGTH) > 0
    ensures DecodeFrom(table, s, i) ==
      Emit(table, TokenOf(s, i, TokenAt(s, i, MAX_TOKEN_LENGTH))) + DecodeFrom(table, s, i + TokenAt(s, i, MAX_TOKEN_LENGTH))
  {
    var n := TokenAt(s, i, MAX_TOKEN_LENGTH);
    TokenStep(s, i);
    EmitCons(table, TokenOf(s, i, n), TokensFrom(s, i + n));
  }

  /** A run of more than seven non-space characters is cut after seven, and the
      rest of the run starts the next token. */
  lemma {:induction false} LongRunSplits(table: seq<MorseCode>, s: string, i: nat)
    requires i + MAX_TOKEN_LENGTH < |s|
    requires forall k | i <= k <= i + MAX_TOKEN_LENGTH :: s[k] != SPACE
    requires s[i] != WORD_SEPARATOR
    ensures DecodeFrom(table, s, i) ==
      [Lookup(table, s[i..i + MAX_TOKEN_LENGTH])] + DecodeFrom(table, s, i + MAX_TOKEN_LENGTH)
  {
    TokenAtIs(s, i, MAX_TOKEN_LENGTH);
    TokenStep(s, i);
    assert SpacesAt(s, i + MAX_TOKEN_LENGTH) == 0;
    EmitCons(table, TokenOf(s, i, MAX_TOKEN_LENGTH), TokensFrom(s, i + MAX_TOKEN_LENGTH));
  }

  /** Spaces by themselves write nothing: the output from a run of spaces on
      is the output from the end of the run on. */
  lemma {:induction false} DecodeSkipsSpaces(table: seq<MorseCode>, s: string, i: nat, n: nat)
    requires i + n <= |s|
    requires forall k | i <= k < i + n :: s[k] == SPACE
    ensures DecodeFrom(table, s, i) == DecodeFrom(table, s, i + n)
  {
    SkipSpaces(s, i, n);
  }

  /** A token starting with '/' writes exactly one space. */
  lemma {:induction false} SeparatorWrites(table: seq<MorseCode>, s: string, i: nat)
    requires i < |s| && s[i] == WORD_SEPARATOR
    ensures TokenAt(s, i, MAX_TOKEN_LENGTH) > 0
    ensures DecodeFrom(table, s, i) == [SPACE] + DecodeFrom(table, s, i + TokenAt(s, i, MAX_TOKEN_LENGTH))
  {
    DecodeStep(table, s, i);
  }

  /** Any other token writes the letter its characters look up to, and a
      space exactly when two or more spaces follow it. */
  lemma {:induction false} LetterWrites(table: seq<MorseCode>, s: string, i: nat)
    requires i < |s| && s[i] != SPACE && s[i] != WORD_SEPARATOR
    ensures TokenAt(s, i, MAX_TOKEN_LENGTH) > 0
    ensures var n := TokenAt(s, i, MAX_TOKEN_LENGTH);
      DecodeFrom(table, s, i) ==
        [Lookup(table, s[i..i + n])] + (if SpacesAt(s, i + n) > 1 then [SPACE] else []) + DecodeFrom(table, s, i + n)
  {
    DecodeStep(table, s, i);
  }

  /** Every token emits one or two characters: two for a code that ends a
      word. */
  function Width(t: Token): nat {
    if t.Code? && t.wordEnd then 2 else 1
  }

  /** The number of characters a sequence of tokens emits. */
  function Widths(ts: seq<Token>): nat
    decreases |ts|
  {
    if ts == [] then 0 else Width(ts[0]) + Widths(ts[1..])
  }

  /** The first token's width ahead of the rest. */
  lemma {:induction false} WidthsCons(t: Token, ts: seq<Token>)
    ensures Widths([t] + ts) == Width(t) + Widths(ts)
  {
    assert ([t] + ts)[1..] == ts;
  }

  /** What the tokens emit is as long as their widths add up to, whatever the
      table. */
  lemma {:induction false} EmitAllLength(table: seq<MorseCode>, ts: seq<Token>)
    ensures |EmitAll(table, ts)| == Widths(ts)
    decreases |ts|
  {
    if ts != [] {
      EmitAllLength(table, ts[1..]);
    }
  }

  /** Every character the tokens emit is a letter of the table, '?' or a
      space. */
  lemma {:induction false} EmitAllAlphabet(table: seq<MorseCode>, ts: seq<Token>)
    ensures forall k | 0 <= k < |EmitAll(table, ts)| :: IsOutputChar(table, EmitAll(table, ts)[k])
    decreases |ts|
  {
    if ts != [] {
      EmitAllAlphabet(table, ts[1..]);
      if ts[0].Code? {
        LookupResult(table, ts[0].code);
      }
    }
  }

  /** The tokens are no wider than the input they are cut from, and narrower
      when it starts with a space. */
  lemma {:induction false} TokensWidth(s: string, i: nat)
    requires i <= |s|
    ensures Widths(TokensFrom(s, i)) + (if i < |s| && s[i] == SPACE then 1 else 0) <= |s| - i
    decreases |s| - i
  {
    if i == |s| {
    } else if s[i] == SPACE {
      TokensWidth(s, i + 1);
    } else {
      TokensWidth(s, i + TokenAt(s, i, MAX_TOKEN_LENGTH));
      TokenWidthStep(s, i);
    }
  }

  /** The step of that induction at a token, given the bound for the tokens
      after it. */
  lemma {:induction false} TokenWidthStep(s: string, i: nat)
    requires i < |s| && s[i] != SPACE
    requires Widths(TokensFrom(s, i + TokenAt(s, i, MAX_TOKEN_LENGTH))) +
      (if i + TokenAt(s, i, MAX_TOKEN_LENGTH) < |s| && s[i + TokenAt(s, i, MAX_TOKEN_LENGTH)] == SPACE then 1 else 0)
      <= |s| - (i + TokenAt(s, i, MAX_TOKEN_LENGTH))
    ensures Widths(TokensFrom(s, i)) <= |s| - i
  {
    var n := TokenAt(s, i, MAX_TOKEN_LENGTH);
    TokenStep(s, i);
    WidthOf(s, i, n);
    WidthAhead(s, i, n, TokenOf(s, i, n), TokensFrom(s, i + n));
  }

  /** The arithmetic of that step: a token one character wide takes at least
      one character, and one two characters wide also takes the space after
      it. */
  lemma {:induction false} WidthAhead(s: string, i: nat, n: nat, t: Token, rest: seq<Token>)
    requires i < |s| && s[i] != SPACE && 0 < n && i + n <= |s|
    requires TokensFrom(s, i) == [t] + rest
    requires Widths(rest) + (if i + n < |s| && s[i + n] == SPACE then 1 else 0) <= |s| - (i + n)
    requires Width(t) <= 1 || (i + n < |s| && s[i + n] == SPACE)
    ensures Widths(TokensFrom(s, i)) <= |s| - i
  {
    WidthsCons(t, rest);
  }

  /** A token two characters wide is followed by a space. */
  lemma {:induction false} WidthOf(s: string, i: nat, n: nat)
    requires 0 < n && i + n <= |s|
    ensures Width(TokenOf(s, i, n)) <= 1 || (i + n < |s| && s[i + n] == SPACE)
  {
  }

  /** No token is cut exactly when the rest of the input is all spaces. */
  lemma {:induction false} TokensEmpty(s: string, i: nat)
    requires i <= |s|
    ensures TokensFrom(s, i) == [] <==> forall k | i <= k < |s| :: s[k] == SPACE
    decreases |s| - i
  {
    if i < |s| {
      if s[i] == SPACE {
        TokensEmpty(s, i + 1);
      } else {
        TokenStep(s, i);
      }
    }
  }

  /** The output is empty exactly when the rest of the input is all spaces. */
  lemma {:induction false} DecodeEmpty(table: seq<MorseCode>, s: string, i: nat)
    requires i <= |s|
    ensures DecodeFrom(table, s, i) == [] <==> forall k | i <= k < |s| :: s[k] == SPACE
  {
    TokensEmpty(s, i);
    var ts := TokensFrom(s, i);
    EmitAllLength(table, ts);
    assert ts != [] ==> Widths(ts) > 0;
  }

  /** The output is no longer than the input, and shorter when the input
      starts with a space. */
  lemma {:induction false} DecodeLength(table: seq<MorseCode>, s: string, i: nat)
    requires i <= |s|
    ensures |DecodeFrom(table, s, i)| + (if i < |s| && s[i] == SPACE then 1 else 0) <= |s| - i
  {
    EmitAllLength(table, TokensFrom(s, i));
    TokensWidth(s, i);
  }

  /** Every output character is a letter of the table, '?' or a space. */
  lemma {:induction false} DecodeAlphabet(table: seq<MorseCode>, s: string, i: nat)
    requires i <= |s|
    ensures forall k | 0 <= k < |DecodeFrom(table, s, i)| :: IsOutputChar(table, DecodeFrom(table, s, i)[k])
  {
    EmitAllAlphabet(table, TokensFrom(s, i));
  }

  /** What two runs of tokens emit, one after the other. */
  lemma {:induction false} EmitAppend(table: seq<MorseCode>, a: seq<Token>, b: seq<Token>)
    ensures EmitAll(table, a + b) == EmitAll(table, a) + EmitAll(table, b)
    decreases |a|
  {
    if a == [] {
      assert a + b == b;
    } else {
      assert (a + b)[1..] == a[1..] + b;
      EmitAppend(table, a[1..], b);
    }
  }

  /** Emitting one more token of a sequence appends what it emits. */
  lemma {:induction false} EmitSnoc(table: seq<MorseCode>, ts: seq<Token>, k: nat)
    requires k < |ts|
    ensures EmitAll(table, ts[..k + 1]) == EmitAll(table, ts[..k]) + Emit(table, ts[k])
  {
    assert ts[..k + 1] == ts[..k] + [ts[k]];
    EmitAppend(table, ts[..k], [ts[k]]);
    EmitCons(table, ts[k], []);
    assert [ts[k]] + [] == [ts[k]];
  }

  /** What the `k`th token emits fits after what the tokens before it emit. */
  lemma {:induction false} EmitFits(table: seq<MorseCode>, toks: seq<Token>, k: nat)
    requires k < |toks|
    ensures |EmitAll(table, toks[..k])| + |Emit(table, toks[k])| <= |EmitAll(table, toks)|
  {
    EmitSnoc(table, toks, k);
    EmitPrefix(table, toks, k + 1);
  }

  /** Appending what the `k`th token emits to what the tokens before it emit. */
  lemma {:induction false} EmitNext(table: seq<MorseCode>, toks: seq<Token>, k: nat, tok: Token, before: string, after: string)
    requires k < |toks| && toks[k] == tok
    requires before == EmitAll(table, toks[..k]) && after == before + Emit(table, tok)
    ensures after == EmitAll(table, toks[..k + 1])
  {
    EmitSnoc(table, toks, k);
  }

  /** What a prefix of the tokens emits is a prefix of what they all emit. */
  lemma {:induction false} EmitPrefix(table: seq<MorseCode>, ts: seq<Token>, k: nat)
    requires k <= |ts|
    ensures |EmitAll(table, ts[..k])| <= |EmitAll(table, ts)|
  {
    assert ts == ts[..k] + ts[k..];
    EmitAppend(table, ts[..k], ts[k..]);
  }

  // ---------------------------------------------------------------------
  // decode_morse_message, the in-place algorithm

  /** `input` holds the C string `s`: its characters, then a NUL. */
  ghost predicate Holds(input: array<char>, s: string)
    reads input
  {
    |s| < input.Length && input[..|s|] == s && input[|s|] == NUL && NulFree(s)
  }

  /** The only NUL in the characters up to the end of the C string ends it. */
  lemma {:induction false} NulEnds(input: array<char>, s: string, i: nat)
    requires Holds(input, s) && i <= |s|
    ensures input[i] == NUL <==> i == |s|
  {
    if i < |s| {
      assert input[i] == input[..|s|][i];
    }
  }

  /** The `space_count` loop: counts the spaces from position `p` on. The loop
      that skips leading spaces is the same walk. */
  method CountSpaces(input: array<char>, ghost s: string, p: nat) returns (count: nat)
    requires Holds(input, s) && p <= |s|
    ensures count == SpacesAt(s, p)
    ensures p + count <= |s| && (p + count < |s| ==> s[p + count] != SPACE)
    ensures forall k | p <= k < p + count :: s[k] == SPACE
  {
    count := 0;
    while input[p + count] == SPACE
      invariant p + count <= |s|
      invariant forall k | p <= k < p + count :: s[k] == SPACE
      decreases |s| - count
    {
      count := count + 1;
    }
    SpacesAtIs(s, p, count);
  }

  /** The token loop: copies the token at position `p` into `token`, ends it
      with a NUL, and returns its length. */
  method ExtractToken(input: array<char>, ghost s: string, p: nat, token: array<char>) returns (len: nat)
    requires Holds(input, s) && p <= |s|
    requires token.Length == TOKEN_BUFFER_SIZE && token != input
    modifies token
    ensures len == TokenAt(s, p, MAX_TOKEN_LENGTH)
    ensures token[..len] == s[p..p + len] && token[len] == NUL
  {
    len := 0;
    while len < MAX_TOKEN_LENGTH
      invariant len <= MAX_TOKEN_LENGTH && p + len <= |s|
      invariant forall k | 0 <= k < len :: token[k] == s[p + k]
      invariant forall k | p <= k < p + len :: s[k] != SPACE
      decreases MAX_TOKEN_LENGTH - len
    {
      var currentChar := input[p + len];
      if currentChar == SPACE || currentChar == NUL {
        assert p + len == |s| || s[p + len] == SPACE;
        break;
      }
      token[len] := currentChar;
      len := len + 1;
    }
    token[len] := NUL;
    assert token[..len] == s[p..p + len];
    TokenAtIs(s, p, len);
  }

  /** The body of the decoder's main loop once the spaces are skipped: cuts
      the token at position `p`, writes what it emits at `outPtr`, and returns
      the new input and output positions. */
  method DecodeToken(table: seq<MorseCode>, input: array<char>, ghost s: string, p: nat,
                     token: array<char>, output: array<char>, outPtr: nat)
    returns (inPtr: nat, newOutPtr: nat)
    requires WellFormed(table)
    requires Holds(input, s) && p < |s| && s[p] != SPACE
    requires token.Length == TOKEN_BUFFER_SIZE
    requires token != input && token != output && input != output
    requires outPtr + |Emit(table, TokenOf(s, p, TokenAt(s, p, MAX_TOKEN_LENGTH)))| <= output.Length
    modifies token, output
    ensures inPtr == p + TokenAt(s, p, MAX_TOKEN_LENGTH)
    ensures newOutPtr == outPtr + |Emit(table, TokenOf(s, p, TokenAt(s, p, MAX_TOKEN_LENGTH)))|
    ensures output[..newOutPtr] == old(output[..outPtr]) + Emit(table, TokenOf(s, p, TokenAt(s, p, MAX_TOKEN_LENGTH)))
    ensures forall k | newOutPtr <= k < output.Length :: output[k] == old(output[k])
  {
    ghost var n := TokenAt(s, p, MAX_TOKEN_LENGTH);
    ghost var done := output[..outPtr];
    // the token, into its buffer
    var tokenIdx := ExtractToken(input, s, p, token);
    inPtr := p + tokenIdx;
    newOutPtr := outPtr;
    ghost var code := token[..];
    TokenCode(s, p, n, code);
    // '/' starts a word space
    if token[0] == WORD_SEPARATOR {
      ghost var before := output[..];
      output[newOutPtr] := SPACE;
      WriteAt(before, output[..], outPtr, SPACE);
      newOutPtr := newOutPtr + 1;
      return;
    }
    // otherwise the letter the code stands for
    var decoded := MorseToChar(table, token[..]);
    ghost var before := output[..];
    output[newOutPtr] := decoded;
    WriteAt(before, output[..], outPtr, decoded);
    newOutPtr := newOutPtr + 1;
    // and a word space when two or more spaces follow
    var spaceCount := CountSpaces(input, s, inPtr);
    ghost var written := output[..];
    if spaceCount > 1 {
      output[newOutPtr] := SPACE;
      WriteAt(written, output[..], outPtr + 1, SPACE);
      newOutPtr := newOutPtr + 1;
      EmitLetter(table, s, p, n, done, done + [decoded] + [SPACE]);
    } else {
      EmitLetter(table, s, p, n, done, done + [decoded]);
    }
  }

  /** The token buffer filled from position `i` holds, as a C string, the
      token's characters, and starts with the token's first character. */
  lemma {:induction false} TokenCode(s: string, i: nat, n: nat, code: seq<char>)
    requires i < |s| && s[i] != SPACE && NulFree(s) && n == TokenAt(s, i, MAX_TOKEN_LENGTH)
    requires n < |code| && code[..n] == s[i..i + n] && code[n] == NUL
    ensures 0 < n && code[0] == s[i]
    ensures CString(code) == s[i..i + n]
  {
    assert code[0] == code[..n][0];
    assert NulFree(code[..n]) by {
      forall k | 0 <= k < n ensures code[..n][k] != NUL {
        assert code[..n][k] == s[i + k];
      }
    }
    CStringBeforeNul(code, n);
  }

  /** What a letter token emits, given the letter and the output before it. */
  lemma {:induction false} EmitLetter(table: seq<MorseCode>, s: string, i: nat, n: nat, done: string, after: string)
    requires 0 < n && i + n <= |s| && s[i] != WORD_SEPARATOR
    requires after == done + [Lookup(table, s[i..i + n])] + (if SpacesAt(s, i + n) > 1 then [SPACE] else [])
    ensures after == done + Emit(table, TokenOf(s, i, n))
  {
  }

  /** Writing `c` at index `k` of a buffer whose front `k` characters are
      `before[..k]` appends `c` to them, and leaves the later characters. */
  lemma {:induction false} WriteAt(before: seq<char>, after: seq<char>, k: nat, c: char)
    requires k < |before| && after == before[k := c]
    ensures after[..k + 1] == before[..k] + [c]
    ensures forall j | k < j < |after| :: after[j] == before[j]
  {
  }

  /** The same pass stated on the tokens of the whole input: after the spaces
      from position `q` on, the `k`th token is cut at position `p` and what it
      emits is written after what the tokens before it emit. */
  method DecodeNext(table: seq<MorseCode>, input: array<char>, ghost s: string, ghost q: nat, p: nat,
                    token: array<char>, output: array<char>, outPtr: nat, ghost toks: seq<Token>, ghost k: nat)
    returns (inPtr: nat, newOutPtr: nat)
    requires WellFormed(table)
    requires Holds(input, s) && q <= p < |s| && s[p] != SPACE && forall j | q <= j < p :: s[j] == SPACE
    requires token.Length == TOKEN_BUFFER_SIZE
    requires token != input && token != output && input != output
    requires k <= |toks| && TokensFrom(s, q) == toks[k..]
    requires outPtr <= output.Length && output[..outPtr] == EmitAll(table, toks[..k])
    requires |EmitAll(table, toks)| < output.Length
    modifies token, output
    ensures p < inPtr <= |s| && k < |toks| && TokensFrom(s, inPtr) == toks[k + 1..]
    ensures outPtr <= newOutPtr <= output.Length && output[..newOutPtr] == EmitAll(table, toks[..k + 1])
    ensures forall j | newOutPtr <= j < output.Length :: output[j] == old(output[j])
  {
    ghost var before := output[..outPtr];
    TokenFits(table, s, q, p, toks, k);
    inPtr, newOutPtr := DecodeToken(table, input, s, p, token, output, outPtr);
    TokenWritten(table, s, q, p, inPtr, toks, k, before, output[..newOutPtr]);
  }

  /** After the spaces from position `q` on, what the token cut at position `i`
      emits fits in what all the tokens emit. */
  lemma {:induction false} TokenFits(table: seq<MorseCode>, s: string, q: nat, i: nat, toks: seq<Token>, k: nat)
    requires q <= i < |s| && s[i] != SPACE && forall j | q <= j < i :: s[j] == SPACE
    requires k <= |toks| && TokensFrom(s, q) == toks[k..]
    ensures |EmitAll(table, toks[..k])| + |Emit(table, TokenOf(s, i, TokenAt(s, i, MAX_TOKEN_LENGTH)))| <= |EmitAll(table, toks)|
  {
    TokenNext(s, q, i, i + TokenAt(s, i, MAX_TOKEN_LENGTH), toks, k);
    EmitFits(table, toks, k);
  }

  /** Once that token is written, the input after it holds the tokens after
      it, and the output holds what the tokens up to it emit. */
  lemma {:induction false} TokenWritten(table: seq<MorseCode>, s: string, q: nat, i: nat, j: nat, toks: seq<Token>, k: nat, before: string, after: string)
    requires q <= i < |s| && s[i] != SPACE && forall j | q <= j < i :: s[j] == SPACE
    requires k <= |toks| && TokensFrom(s, q) == toks[k..]
    requires j == i + TokenAt(s, i, MAX_TOKEN_LENGTH)
    requires before == EmitAll(table, toks[..k])
    requires after == before + Emit(table, TokenOf(s, i, TokenAt(s, i, MAX_TOKEN_LENGTH)))
    ensures k < |toks| && TokensFrom(s, j) == toks[k + 1..]
    ensures after == EmitAll(table, toks[..k + 1])
  {
    TokenNext(s, q, i, j, toks, k);
    EmitNext(table, toks, k, TokenOf(s, i, TokenAt(s, i, MAX_TOKEN_LENGTH)), before, after);
  }

  /** After the spaces from position `q` on, the token cut at position `i` is
      the next of the tokens, and the tokens after it are cut after it. */
  lemma {:induction false} TokenNext(s: string, q: nat, i: nat, j: nat, toks: seq<Token>, k: nat)
    requires q <= i < |s| && s[i] != SPACE && forall j | q <= j < i :: s[j] == SPACE
    requires k <= |toks| && TokensFrom(s, q) == toks[k..]
    requires j == i + TokenAt(s, i, MAX_TOKEN_LENGTH)
    ensures k < |toks| && toks[k] == TokenOf(s, i, TokenAt(s, i, MAX_TOKEN_LENGTH))
    ensures TokensFrom(s, j) == toks[k + 1..]
  {
    SkipTo(s, q, i);
    TokenStep(s, i);
    ConsParts(toks[k..], TokenOf(s, i, TokenAt(s, i, MAX_TOKEN_LENGTH)), TokensFrom(s, j));
    DropParts(toks, k);
  }

  /** The spaces from position `q` up to `i` cut no token. */
  lemma {:induction false} SkipTo(s: string, q: nat, i: nat)
    requires q <= i <= |s| && forall j | q <= j < i :: s[j] == SPACE
    ensures TokensFrom(s, q) == TokensFrom(s, i)
  {
    SkipSpaces(s, q, i - q);
  }

  /** A sequence made of a head and a tail has that head and that tail. */
  lemma {:induction false} ConsParts<T>(a: seq<T>, x: T, b: seq<T>)
    requires a == [x] + b
    ensures |a| > 0 && a[0] == x && a[1..] == b
  {
  }

  /** The suffix from `k` on starts with the `k`th element, followed by the
      suffix from `k + 1` on. */
  lemma {:induction false} DropParts<T>(a: seq<T>, k: nat)
    requires k < |a|
    ensures a[k..][0] == a[k] && a[k..][1..] == a[k + 1..]
  {
  }

  /** decode_morse_message: writes the decoded message, NUL-terminated, to the
      front of `output`, and nothing after it. */
  method DecodeMorseMessage(table: seq<MorseCode>, input: array<char>, ghost s: string, output: array<char>)
    requires WellFormed(table)
    requires Holds(input, s)
    requires input != output
    requires |Decode(table, s)| < output.Length
    modifies output
    ensures output[..|Decode(table, s)|] == Decode(table, s)
    ensures output[|Decode(table, s)|] == NUL
    ensures forall k | |Decode(table, s)| < k < output.Length :: output[k] == old(output[k])
  {
    var inPtr: nat := 0;
    var outPtr: nat := 0;
    // The tokens of the whole input, of which the first `k` are decoded.
    ghost var toks := TokensFrom(s, 0);
    ghost var k: nat := 0;
    var token := new char[TOKEN_BUFFER_SIZE];
    while input[inPtr] != NUL
      invariant Holds(input, s)
      invariant inPtr <= |s| && outPtr <= output.Length && k <= |toks| && TokensFrom(s, inPtr) == toks[k..]
      invariant |EmitAll(table, toks)| < output.Length
      invariant output[..outPtr] == EmitAll(table, toks[..k])
      invariant forall j | outPtr <= j < output.Length :: output[j] == old(output[j])
      decreases |s| - inPtr
    {
      // the spaces ahead of the next token
      ghost var q := inPtr;
      var skipped := CountSpaces(input, s, inPtr);
      inPtr := inPtr + skipped;
      if input[inPtr] == NUL {
        SkipSpaces(s, q, skipped);
        break;
      }
      inPtr, outPtr := DecodeNext(table, input, s, q, inPtr, token, output, outPtr, toks, k);
      k := k + 1;
    }
    NulEnds(input, s, inPtr);
    assert toks[k..] == [];
    assert toks[..k] == toks;
    output[outPtr] := NUL;
  }
}
