/**
 * The query tokenizer (internal/query/tokenizer.go). A `strings.Reader` is
 * modelled by the `Tokenizer` class: a rune cursor into the query together with
 * the byte offset Go's reader keeps. The functions below say what one call of
 * `next` produces, and the methods are proved to behave as they say.
 */
module QueryTokenizer {
  import opened Util
  import opened QueryTokens

  /** The outcome of one call of `next`. */
  datatype Lexed =
    | Tok(t: Token)
    | Eof
      /** `unclosedStringErr`, which unwraps to `ErrUnclosedString`. */
    | Unclosed(str: string, p: Position)
      /** A bare word of no runes; reported as a `tokenizerErr` by the corrected tokenizer. */
    | EmptyWord(p: Position)

  /** The runes that end a bare word (`readString`'s second argument in `next`). */
  const WordTerminators: string := "()=,\"' \t\n"

  /** Byte offset of rune index `i`: what `Size() - Len()` reports. */
  function Offset(s: string, i: nat): nat
    requires i <= |s|
  {
    Utf8Len(s[..i])
  }

  lemma OffsetStep(s: string, i: nat)
    requires i < |s|
    ensures Offset(s, i + 1) == Offset(s, i) + RuneLen(s[i])
  {
    assert s[..i + 1][..i] == s[..i];
  }

  lemma OffsetSplit(s: string, a: nat, b: nat)
    requires a <= b <= |s|
    ensures Offset(s, b) == Offset(s, a) + Utf8Len(s[a..b])
    ensures Offset(s, a) + (b - a) <= Offset(s, b)
  {
    assert s[..b] == s[..a] + s[a..b];
    Utf8LenAppend(s[..a], s[a..b]);
  }

  /** The index of the first rune at or after `i` that is not white space. */
  function SkipSpace(s: string, i: nat): (j: nat)
    requires i <= |s|
    ensures i <= j <= |s|
    ensures forall k :: i <= k < j ==> IsSpace(s[k])
    ensures j < |s| ==> !IsSpace(s[j])
    decreases |s| - i
  {
    if i < |s| && IsSpace(s[i]) then SkipSpace(s, i + 1) else i
  }

  /** The index of the first rune at or after `i` that is in `eos`, or the end of `s`. */
  function ReadEnd(s: string, i: nat, eos: string): (j: nat)
    requires i <= |s|
    ensures i <= j <= |s|
    ensures forall k :: i <= k < j ==> s[k] !in eos
    ensures j < |s| ==> s[j] in eos
    decreases |s| - i
  {
    if i < |s| && s[i] !in eos then ReadEnd(s, i + 1, eos) else i
  }

  /** The keyword tokens, positioned at byte offset `p`. */
  function Keyword(w: string, p: int): Option<Token>
  {
    if w == "true" then Some(TBool(Position(p, p + 4), true))
    else if w == "false" then Some(TBool(Position(p, p + 5), false))
    else if w == "minus" then Some(TSubtract(Position(p, p + 5)))
    else if w == "union" then Some(TUnion(Position(p, p + 5)))
    else if w == "inter" then Some(TIntersect(Position(p, p + 5)))
    else if w == "delta" then Some(TDelta(Position(p, p + 5)))
    else None
  }

  /** The token a bare word becomes: a keyword, else an integer if `Atoi` accepts it, else a string. */
  function WordToken(w: string, p: Position): Token
  {
    match Keyword(w, p.start)
    case Some(t) => t
    case None =>
      match Atoi(w)
      case Some(v) => TInt(p, v)
      case None => TStr(p, w)
  }

  /** A quoted string whose opening quote is rune `j`: its text, widened to cover both quotes. */
  function LexQuoted(s: string, j: nat): (Lexed, nat)
    requires j < |s|
  {
    var p := Offset(s, j);
    var e := ReadEnd(s, j + 1, [s[j]]);
    if e == |s| then (Unclosed(s[j + 1..e], Position(p, Offset(s, e))), e)
    else (Tok(TStr(Position(p, Offset(s, e) + 1), s[j + 1..e])), e + 1)
  }

  /** A bare word starting at rune `j`. */
  function LexWord(s: string, j: nat): (Lexed, nat)
    requires j <= |s|
  {
    var e := ReadEnd(s, j, WordTerminators);
    (Tok(WordToken(s[j..e], Position(Offset(s, j), Offset(s, e)))), e)
  }

  /** The token that starts at the non-space rune `j`. */
  function LexAt(s: string, j: nat): (Lexed, nat)
    requires j < |s|
  {
    var p := Offset(s, j);
    var c := s[j];
    if c == '(' then (Tok(TParenLeft(Position(p, p + 1))), j + 1)
    else if c == ')' then (Tok(TParenRight(Position(p, p + 1))), j + 1)
    else if c == '-' then (Tok(TSubtract(Position(p, p + 1))), j + 1)
    else if c == '+' then (Tok(TUnion(Position(p, p + 1))), j + 1)
    else if c == ',' then (Tok(TComma(Position(p, p + 1))), j + 1)
    else if c == '"' || c == '\'' then LexQuoted(s, j)
    else LexWord(s, j)
  }

  /** `next` as written: the outcome and the rune cursor afterwards. */
  function NextAsWritten(s: string, i: nat): (Lexed, nat)
    requires i <= |s|
  {
    var j := SkipSpace(s, i);
    if j == |s| then (Eof, j) else LexAt(s, j)
  }

  /**
   * `next` as written returns without consuming anything exactly when the next
   * non-space rune is `=`: it then yields an empty string token at a zero-width
   * position, and calling it again yields the same token forever.
   */
  lemma BareEqualsStalls(s: string, i: nat)
    requires i <= |s|
    ensures var j := SkipSpace(s, i);
      (NextAsWritten(s, i).1 == j && j < |s|) <==> (j < |s| && s[j] == '=')
    ensures var j := SkipSpace(s, i);
      j < |s| && s[j] == '=' ==>
        NextAsWritten(s, i).0 == Tok(TStr(Position(Offset(s, j), Offset(s, j)), ""))
        && NextAsWritten(s, j) == NextAsWritten(s, i)
  {
    var j := SkipSpace(s, i);
    if j < |s| && s[j] == '=' {
      assert ReadEnd(s, j, WordTerminators) == j;
      assert SkipSpace(s, j) == j;
    }
  }

  /**
   * `next` with the stall removed: a bare word of no runes (only `=` starts one)
   * consumes its rune and is reported as an error instead of an empty token.
   */
  function NextSpec(s: string, i: nat): (r: (Lexed, nat))
    requires i <= |s|
    ensures r.1 <= |s|
    ensures r.0.Eof? ==> r.1 == |s| && forall k :: i <= k < |s| ==> IsSpace(s[k])
    ensures !r.0.Eof? ==> i < r.1
  {
    var j := SkipSpace(s, i);
    if j < |s| && s[j] == '=' then
      (EmptyWord(Position(Offset(s, j), Offset(s, j) + 1)), j + 1)
    else
      BareEqualsStalls(s, i);
      NextAsWritten(s, i)
  }

  /** Apart from the `=` case the corrected `next` is `next` as written. */
  lemma NextSpecAgrees(s: string, i: nat)
    requires i <= |s|
    requires SkipSpace(s, i) == |s| || s[SkipSpace(s, i)] != '='
    ensures NextSpec(s, i) == NextAsWritten(s, i)
  {
  }

  lemma QuotedSpan(s: string, j: nat)
    requires j < |s| && (s[j] == '"' || s[j] == '\'') && LexQuoted(s, j).0.Tok?
    ensures var (l, k) := LexQuoted(s, j);
      l.t.p.start == Offset(s, j) && l.t.p.start < l.t.p.end == Offset(s, k)
  {
    var e := ReadEnd(s, j + 1, [s[j]]);
    OffsetStep(s, j);
    OffsetSplit(s, j + 1, e);
    OffsetStep(s, e);
  }

  lemma WordSpan(s: string, j: nat)
    requires j < |s| && s[j] !in WordTerminators
    ensures var (l, k) := LexWord(s, j);
      l.t.p.start == Offset(s, j) && l.t.p.start < l.t.p.end == Offset(s, k)
  {
    var e := ReadEnd(s, j, WordTerminators);
    var w := s[j..e];
    OffsetSplit(s, j, e);
    if Keyword(w, 0).Some? {
      Utf8LenAscii(w);
    }
  }

  /** Every token `next` yields starts at the first non-space rune and ends exactly at the new cursor. */
  lemma TokenSpan(s: string, i: nat)
    requires i <= |s|
    requires NextSpec(s, i).0.Tok?
    ensures var (l, k) := NextSpec(s, i);
      l.t.p.start == Offset(s, SkipSpace(s, i)) && l.t.p.start < l.t.p.end == Offset(s, k)
  {
    var j := SkipSpace(s, i);
    OffsetStep(s, j);
    var c := s[j];
    if c == '"' || c == '\'' {
      QuotedSpan(s, j);
    } else if c !in "()-+," {
      WordSpan(s, j);
    }
  }

  /** The outcome of tokenizing everything from rune `i` on, as `Parse`'s loop does. */
  datatype Lexing = Tokens(ts: seq<Token>) | LexError(l: Lexed)

  function TokenizeFrom(s: string, i: nat): Lexing
    requires i <= |s|
    decreases |s| - i
  {
    match NextSpec(s, i)
    case (Tok(t), k) =>
      (match TokenizeFrom(s, k)
       case Tokens(ts) => Tokens([t] + ts)
       case LexError(l) => LexError(l))
    case (Eof, _) => Tokens([])
    case (l, _) => LexError(l)
  }

  /** Token positions lie within the query's bytes, are non-empty, and increase without overlapping. */
  predicate PositionsIncreasing(ts: seq<Token>, from: int, upto: int)
  {
    (forall k :: 0 <= k < |ts| ==> from <= ts[k].p.start < ts[k].p.end <= upto)
    && (forall k, m :: 0 <= k < m < |ts| ==> ts[k].p.end <= ts[m].p.start)
  }

  lemma ConsPositions(t: Token, ts: seq<Token>, lo: int, mid: int, hi: int)
    requires lo <= t.p.start < t.p.end <= mid <= hi
    requires PositionsIncreasing(ts, mid, hi)
    ensures PositionsIncreasing([t] + ts, lo, hi)
  {
    var r := [t] + ts;
    forall k | 0 < k < |r| ensures r[k] == ts[k - 1] {}
  }

  lemma {:induction false} TokenizePositions(s: string, i: nat)
    requires i <= |s|
    requires TokenizeFrom(s, i).Tokens?
    ensures PositionsIncreasing(TokenizeFrom(s, i).ts, Offset(s, i), Utf8Len(s))
    decreases |s| - i
  {
    var (l, k) := NextSpec(s, i);
    assert s[..|s|] == s;
    if l.Tok? {
      TokenSpan(s, i);
      TokenizePositions(s, k);
      OffsetSplit(s, i, SkipSpace(s, i));
      OffsetSplit(s, k, |s|);
      ConsPositions(l.t, TokenizeFrom(s, k).ts, Offset(s, i), Offset(s, k), Utf8Len(s));
    }
  }

  /** The same token with its position forgotten. */
  function AtOrigin(t: Token): Token
  {
    t.(p := Position(0, 0))
  }

  /** A bare word that reads back as a string token. */
  predicate PlainWord(w: string)
  {
    |w| > 0 && !IsSpace(w[0]) && w[0] !in "-+"
    && (forall k :: 0 <= k < |w| ==> w[k] !in WordTerminators)
    && Keyword(w, 0).None? && Atoi(w).None?
  }

  lemma WordRelexes(w: string)
    requires |w| > 0 && !IsSpace(w[0]) && w[0] !in "-+"
    requires forall k :: 0 <= k < |w| ==> w[k] !in WordTerminators
    ensures NextSpec(w, 0) == LexWord(w, 0)
    ensures ReadEnd(w, 0, WordTerminators) == |w| && w[0..|w|] == w
  {
    assert SkipSpace(w, 0) == 0;
    NotTerminator(w[0]);
    assert LexAt(w, 0) == LexWord(w, 0);
  }

  /** A rune outside `WordTerminators` is none of the punctuation `next` looks for. */
  lemma NotTerminator(c: char)
    requires c !in WordTerminators
    ensures c != '(' && c != ')' && c != '=' && c != ',' && c != '"' && c != '\''
  {
    assert WordTerminators[0] == '(' && WordTerminators[1] == ')' && WordTerminators[2] == '=';
    assert WordTerminators[3] == ',' && WordTerminators[4] == '"' && WordTerminators[5] == '\'';
  }

  lemma IntRelexes(v: int)
    requires 0 <= v <= MaxInt64
    ensures NextSpec(IntToString(v), 0).0 == Tok(TInt(Position(0, |IntToString(v)|), v))
  {
    var s := IntToString(v);
    assert forall k :: 0 <= k < |s| ==> IsDigit(s[k]);
    assert NextSpec(s, 0) == LexWord(s, 0) && ReadEnd(s, 0, WordTerminators) == |s| && s[0..|s|] == s by {
      WordRelexes(s);
    }
    assert Offset(s, 0) == 0 && Offset(s, |s|) == |s| by {
      Utf8LenAscii(s);
      assert s[..|s|] == s;
    }
    assert WordToken(s, Position(0, |s|)) == TInt(Position(0, |s|), v) by {
      AtoiIntToString(v);
      KeywordsStartWithLetters(s, 0);
    }
  }

  /** No keyword starts with a digit. */
  lemma KeywordsStartWithLetters(w: string, p: int)
    requires |w| > 0 && IsDigit(w[0])
    ensures Keyword(w, p).None?
  {
    assert w[0] !in "tfmuid";
  }

  lemma OperatorRelexes(t: Token)
    requires IsOperator(t)
    ensures NextSpec(TokenString(t), 0).0.Tok?
    ensures AtOrigin(NextSpec(TokenString(t), 0).0.t) == AtOrigin(t)
  {
    var s, w := TokenString(t), OperatorWord(t);
    assert |s| == |w| + 2 && s[1..|s| - 1] == w;
    if t.TSubtract? || t.TUnion? {
      assert s[1] == w[0];
      SymbolBetweenSpaces(s);
    } else {
      OperatorKeyword(w, 0);
      KeywordBetweenSpaces(s, w);
    }
  }

  /** A one-rune operator between two spaces reads back as that operator. */
  lemma SymbolBetweenSpaces(s: string)
    requires |s| == 3 && s[0] == ' ' && s[2] == ' ' && (s[1] == '-' || s[1] == '+')
    ensures NextSpec(s, 0).0.Tok?
    ensures AtOrigin(NextSpec(s, 0).0.t) == if s[1] == '-' then TSubtract(Position(0, 0)) else TUnion(Position(0, 0))
  {
    assert SkipSpace(s, 1) == 1;
    assert SkipSpace(s, 0) == 1;
  }

  /** A word of five lower-case letters between two spaces reads back as its keyword, if it is one. */
  lemma KeywordBetweenSpaces(s: string, w: string)
    requires |s| == 7 && s[0] == ' ' && s[6] == ' ' && s[1..6] == w
    requires forall k :: 0 <= k < 5 ==> 'a' <= w[k] <= 'z'
    requires Keyword(w, 0).Some?
    ensures NextSpec(s, 0).0.Tok?
    ensures AtOrigin(NextSpec(s, 0).0.t) == AtOrigin(Keyword(w, 0).value)
  {
    assert forall k :: 1 <= k < 6 ==> s[k] == w[k - 1];
    assert SkipSpace(s, 0) == 1 by {
      assert SkipSpace(s, 1) == 1;
    }
    assert ReadEnd(s, 1, WordTerminators) == 6 by {
      assert WordTerminators[6] == ' ';
      forall k | 1 <= k < 6 ensures s[k] !in WordTerminators {
        LetterNotTerminator(s[k]);
      }
    }
    assert NextSpec(s, 0) == LexAt(s, 1) by {
      LetterNotTerminator(s[1]);
    }
    var p := Position(Offset(s, 1), Offset(s, 6));
    assert LexAt(s, 1) == (Tok(WordToken(w, p)), 6);
    KeywordAnywhere(w, p.start);
  }

  /** Whether a word is a keyword does not depend on where it is, and neither does the keyword. */
  lemma KeywordAnywhere(w: string, p: int)
    ensures Keyword(w, p).Some? == Keyword(w, 0).Some?
    ensures Keyword(w, p).Some? ==> AtOrigin(Keyword(w, p).value) == AtOrigin(Keyword(w, 0).value)
  {
  }

  /** A lower-case letter is not a word terminator. */
  lemma LetterNotTerminator(c: char)
    requires 'a' <= c <= 'z'
    ensures c !in WordTerminators && c != '-' && c != '+'
  {
  }

  /** The keywords of the two word operators. */
  lemma OperatorKeyword(w: string, p: int)
    requires w == "delta" || w == "inter"
    ensures Keyword(w, p) == Some(if w == "delta" then TDelta(Position(p, p + 5)) else TIntersect(Position(p, p + 5)))
  {
    assert w[0] == 'd' || w[0] == 'i';
    assert "true"[0] == 't' && "false"[0] == 'f' && "minus"[0] == 'm' && "union"[0] == 'u' && "delta"[0] == 'd';
  }

  /**
   * Rendering a token with `String()` and tokenizing the text again gives back a
   * token of the same kind and value (for plain words and non-negative integers,
   * the values the tokenizer itself produces).
   */
  lemma RenderedTokenRelexes(t: Token)
    requires t.TStr? ==> PlainWord(t.s)
    requires t.TInt? ==> 0 <= t.v <= MaxInt64
    ensures NextSpec(TokenString(t), 0).0.Tok?
    ensures AtOrigin(NextSpec(TokenString(t), 0).0.t) == AtOrigin(t)
  {
    var s := TokenString(t);
    if t.TInt? {
      IntRelexes(t.v);
    } else if t.TStr? || t.TBool? {
      WordRelexes(s);
    } else if IsOperator(t) {
      OperatorRelexes(t);
    }
  }

  /** The `strings.Reader` a tokenizer reads from, and the tokenizer's methods. */
  class Tokenizer {
    const input: string
    /** The reader's position, in runes. */
    var cursor: nat
    /** The reader's position, in bytes (`Size() - Len()`). */
    var offset: nat

    ghost predicate Valid()
      reads this
    {
      cursor <= |input| && offset == Offset(input, cursor)
    }

    /** `newTokenizer` */
    constructor (s: string)
      ensures Valid() && input == s && cursor == 0
    {
      input := s;
      cursor := 0;
      offset := 0;
    }

    /** `ReadRune`: the next rune, or nothing at the end of the input. */
    method ReadRune() returns (r: Option<char>)
      requires Valid()
      modifies this
      ensures Valid()
      ensures old(cursor) < |input| ==> r == Some(input[old(cursor)]) && cursor == old(cursor) + 1
      ensures old(cursor) == |input| ==> r == None && cursor == old(cursor)
    {
      if cursor == |input| {
        return None;
      }
      r := Some(input[cursor]);
      OffsetStep(input, cursor);
      offset := offset + RuneLen(input[cursor]);
      cursor := cursor + 1;
    }

    /** `UnreadRune`, called only right after a `ReadRune` that returned a rune. */
    method UnreadRune()
      requires Valid() && cursor > 0
      modifies this
      ensures Valid() && cursor == old(cursor) - 1
    {
      OffsetStep(input, cursor - 1);
      offset := offset - RuneLen(input[cursor - 1]);
      cursor := cursor - 1;
    }

    /**
     * `readString`: accumulates runes up to the first one in `eos`, which is left
     * unread, or up to the end of the input. Returns the text and its byte range.
     */
    method ReadString(eos: string) returns (v: string, start: nat, end: nat)
      requires Valid()
      modifies this
      ensures Valid()
      ensures cursor == ReadEnd(input, old(cursor), eos)
      ensures v == input[old(cursor)..cursor]
      ensures start == Offset(input, old(cursor)) && end == Offset(input, cursor)
    {
      var acc := "";
      start := offset;
      ghost var from := cursor;
      while true
        invariant Valid() && from <= cursor
        invariant acc == input[from..cursor]
        invariant ReadEnd(input, cursor, eos) == ReadEnd(input, from, eos)
        decreases |input| - cursor
      {
        var r := ReadRune();
        if r.None? {
          return acc, start, offset;
        }
        if r.value in eos {
          UnreadRune();
          return acc, start, offset;
        }
        acc := acc + [r.value];
      }
    }

    /** The quoted-string branch of `next`: the opening quote `c` at byte `p` has just been read. */
    method ReadQuoted(c: char, p: nat) returns (r: Lexed)
      requires Valid() && 0 < cursor && input[cursor - 1] == c && (c == '"' || c == '\'')
      requires p == Offset(input, cursor - 1)
      modifies this
      ensures Valid()
      ensures (r, cursor) == LexQuoted(input, old(cursor) - 1)
    {
      var v, start, end := ReadString([c]);
      OffsetStep(input, old(cursor) - 1);
      var closing := ReadRune();
      if closing.None? {
        return Unclosed(v, Position(p, end));
      }
      return Tok(TStr(Position(start - 1, end + 1), v));
    }

    /** The bare-word branch of `next`, with the corrected handling of a word of no runes. */
    method ReadWord(p: nat) returns (r: Lexed)
      requires Valid() && cursor < |input| && p == Offset(input, cursor)
      requires !IsSpace(input[cursor]) && input[cursor] != '"' && input[cursor] != '\''
      modifies this
      ensures Valid()
      ensures input[old(cursor)] == '=' ==>
        r == EmptyWord(Position(p, p + 1)) && cursor == old(cursor) + 1
      ensures input[old(cursor)] != '=' && input[old(cursor)] !in "()," ==>
        (r, cursor) == LexWord(input, old(cursor))
    {
      ghost var j := cursor;
      var v, start, end := ReadString(WordTerminators);
      if v == "" {
        // The corrected behaviour: consume the rune that stopped the word and report it.
        var _ := ReadRune();
        return EmptyWord(Position(p, p + 1));
      }
      return Tok(WordToken(v, Position(p, end)));
    }

    /** The corrected `next`: one token, the end of the input, or an error. */
    method Next() returns (r: Lexed)
      requires Valid()
      modifies this
      ensures Valid()
      ensures (r, cursor) == NextSpec(input, old(cursor))
    {
      ghost var i := cursor;
      var c: char;
      var p: nat;
      while true
        invariant Valid() && i <= cursor
        invariant SkipSpace(input, cursor) == SkipSpace(input, i)
        decreases |input| - cursor
      {
        p := offset;
        var rr := ReadRune();
        if rr.None? {
          return Eof;
        }
        c := rr.value;
        if !IsSpace(c) {
          break;
        }
      }
      ghost var j := cursor - 1;
      assert j == SkipSpace(input, i) && c == input[j] && p == Offset(input, j);
      if c == '(' {
        return Tok(TParenLeft(Position(p, p + 1)));
      } else if c == ')' {
        return Tok(TParenRight(Position(p, p + 1)));
      } else if c == '-' {
        return Tok(TSubtract(Position(p, p + 1)));
      } else if c == '+' {
        return Tok(TUnion(Position(p, p + 1)));
      } else if c == ',' {
        return Tok(TComma(Position(p, p + 1)));
      } else if c == '"' || c == '\'' {
        r := ReadQuoted(c, p);
      } else {
        UnreadRune();
        r := ReadWord(p);
      }
    }
  }
}
