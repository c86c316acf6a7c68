/**
 * `query.Parse` (internal/query/parser.go): tokenize the whole query, then run
 * the shift-reduce parser over the token stream.
 */
module QueryParse {
  import opened Util
  import opened QueryTokens
  import opened QueryGrammar
  import opened QueryTokenizer
  import opened QueryParser
  import QueryParserLaws

  /** What `Parse` returns: an expression, a tokenizer error, or a `parserError`. */
  datatype QueryOutcome =
    | Parsed(e: Expr)
    | LexFailed(l: Lexed)
    | Rejected(err: ParseError, pos: Position)

  /** `Parse` on a query, with the parser reading the nearest token for positions past the stream. */
  function ParseQuery(query: string): (r: QueryOutcome)
    ensures r.Parsed? ==> !Invalid(r.e)
  {
    match TokenizeFrom(query, 0)
    case LexError(l) => LexFailed(l)
    case Tokens(ts) =>
      QueryParserLaws.ParseClampedNeverPanics(ts);
      match ParseTokens(ts, true)
      case Ok(e) => Parsed(e)
      case Fail(err, pos) => Rejected(err, pos)
  }

  /** `Parse`: reads tokens until the end of the query, then parses the stream. */
  method Parse(query: string) returns (r: QueryOutcome)
    ensures r == ParseQuery(query)
  {
    var stream: seq<Token> := [];
    var tokenizer := new Tokenizer(query);
    while true
      invariant tokenizer.Valid() && tokenizer.input == query
      invariant TokenizeFrom(query, 0) ==
                match TokenizeFrom(query, tokenizer.cursor)
                case Tokens(ts) => Tokens(stream + ts)
                case LexError(l) => LexError(l)
      decreases |query| - tokenizer.cursor
    {
      ghost var before := tokenizer.cursor;
      var t := tokenizer.Next();
      if t.Eof? {
        break;
      }
      if !t.Tok? {
        return LexFailed(t);
      }
      assert TokenizeFrom(query, before) ==
             match TokenizeFrom(query, tokenizer.cursor)
             case Tokens(ts) => Tokens([t.t] + ts)
             case LexError(l) => LexError(l);
      assert forall ts :: stream + ([t.t] + ts) == (stream + [t.t]) + ts;
      stream := stream + [t.t];
    }
    assert stream + [] == stream;
    var p := new Parser(stream, true);
    var o := p.Parse();
    QueryParserLaws.ParseClampedNeverPanics(stream);
    match o {
      case Ok(e) => r := Parsed(e);
      case Fail(err, pos) => r := Rejected(err, pos);
    }
  }
}
