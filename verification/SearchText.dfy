/** The search language of the account service, as far as mbop writes it: comparisons of a
    field with a quoted text by `=` or `like`, joined by `and`, which binds tighter than `or`.
    A lexer, a precedence parser and an evaluator give a search text its meaning. */
module SearchText {
  import opened Sequences

  datatype Token = Word(word: string) | Equals | Quoted(text: string)

  datatype Expr =
    | Everything  // the empty search text
    | Cmp(field: string, value: string)
    | Like(field: string, pattern: string)
    | And(left: Expr, right: Expr)
    | Or(left: Expr, right: Expr)

  // ----- lexer -----

  datatype Mode = Between | InWord(word: string) | InQuote(text: string)

  datatype Lexer = Lexer(tokens: seq<Token>, mode: Mode) | Stuck

  predicate IsWordChar(c: char) {
    'a' <= c <= 'z' || 'A' <= c <= 'Z' || c == '.' || c == '_'
  }

  /** One character from between two tokens. */
  function Begin(tokens: seq<Token>, c: char): Lexer {
    if c == ' ' then Lexer(tokens, Between)
    else if c == '=' then Lexer(tokens + [Equals], Between)
    else if c == '\'' then Lexer(tokens, InQuote(""))
    else if IsWordChar(c) then Lexer(tokens, InWord([c]))
    else Stuck
  }

  lemma WordCharBegins(tokens: seq<Token>, c: char)
    requires IsWordChar(c)
    ensures Begin(tokens, c) == Lexer(tokens, InWord([c]))
  {
    assert c != ' ';
    assert c != '=';
    assert c != '\'';
  }

  function Feed(l: Lexer, c: char): Lexer {
    match l
    case Stuck => Stuck
    case Lexer(tokens, Between) => Begin(tokens, c)
    case Lexer(tokens, InWord(w)) =>
      if IsWordChar(c) then Lexer(tokens, InWord(w + [c])) else Begin(tokens + [Word(w)], c)
    case Lexer(tokens, InQuote(t)) =>
      if c == '\'' then Lexer(tokens + [Quoted(t)], Between) else Lexer(tokens, InQuote(t + [c]))
  }

  function FeedAll(l: Lexer, s: string): Lexer {
    if s == [] then l else Feed(FeedAll(l, s[..|s| - 1]), s[|s| - 1])
  }

  function Lex(s: string): Option<seq<Token>> {
    match FeedAll(Lexer([], Between), s)
    case Lexer(tokens, Between) => Some(tokens)
    case Lexer(tokens, InWord(w)) => Some(tokens + [Word(w)])
    case _ => None
  }

  // ----- parser -----

  /** field = 'text'  or  field like 'text' */
  function ParseAtom(ts: seq<Token>): (r: Option<(Expr, seq<Token>)>)
    ensures r.Some? ==> |r.value.1| < |ts|
  {
    if |ts| >= 3 && ts[0].Word? && ts[1] == Equals && ts[2].Quoted? then
      Some((Cmp(ts[0].word, ts[2].text), ts[3..]))
    else if |ts| >= 3 && ts[0].Word? && ts[1] == Word("like") && ts[2].Quoted? then
      Some((Like(ts[0].word, ts[2].text), ts[3..]))
    else None
  }

  function ParseConj(ts: seq<Token>): (r: Option<(Expr, seq<Token>)>)
    ensures r.Some? ==> |r.value.1| < |ts|
    decreases |ts|
  {
    match ParseAtom(ts)
    case None => None
    case Some((first, rest)) =>
      if rest != [] && rest[0] == Word("and") then
        match ParseConj(rest[1..])
        case None => None
        case Some((others, rest')) => Some((And(first, others), rest'))
      else Some((first, rest))
  }

  function ParseDisj(ts: seq<Token>): (r: Option<(Expr, seq<Token>)>)
    ensures r.Some? ==> |r.value.1| < |ts|
    decreases |ts|
  {
    match ParseConj(ts)
    case None => None
    case Some((first, rest)) =>
      if rest != [] && rest[0] == Word("or") then
        match ParseDisj(rest[1..])
        case None => None
        case Some((others, rest')) => Some((Or(first, others), rest'))
      else Some((first, rest))
  }

  /** A search without text does not restrict the result. */
  function Parse(s: string): Option<Expr> {
    match Lex(s)
    case None => None
    case Some(tokens) =>
      if tokens == [] then Some(Everything)
      else
        match ParseDisj(tokens)
        case None => None
        case Some((e, rest)) => if rest == [] then Some(e) else None
  }

  // ----- evaluator -----

  /** LIKE of ISO/IEC 9075-2, section 8.5, without an escape character. */
  predicate LikeMatch(s: string, p: string)
    decreases |s| + |p|
  {
    if p == [] then s == []
    else if p[0] == '%' then LikeMatch(s, p[1..]) || (s != [] && LikeMatch(s[1..], p))
    else s != [] && (p[0] == '_' || p[0] == s[0]) && LikeMatch(s[1..], p[1..])
  }

  predicate Eval(e: Expr, fields: string -> string) {
    match e
    case Everything => true
    case Cmp(f, v) => fields(f) == v
    case Like(f, p) => LikeMatch(fields(f), p)
    case And(l, r) => Eval(l, fields) && Eval(r, fields)
    case Or(l, r) => Eval(l, fields) || Eval(r, fields)
  }

  // ----- printing -----

  predicate IsAtom(e: Expr) { e.Cmp? || e.Like? }

  function Target(e: Expr): string
    requires IsAtom(e)
  {
    if e.Cmp? then e.value else e.pattern
  }

  /** A field name is a word that is not a keyword. */
  predicate IsField(f: string) {
    f != "" && (forall k :: 0 <= k < |f| ==> IsWordChar(f[k])) && f != "and" && f != "or" && f != "like"
  }

  predicate QuoteFree(s: string) { '\'' !in s }

  predicate Printable(e: Expr) {
    IsAtom(e) && IsField(e.field)
  }

  function AtomText(e: Expr): string
    requires IsAtom(e)
  {
    if e.Cmp? then e.field + "='" + e.value + "'" else e.field + " like '" + e.pattern + "'"
  }

  function AtomTokens(e: Expr): seq<Token>
    requires IsAtom(e)
  {
    if e.Cmp? then [Word(e.field), Equals, Quoted(e.value)] else [Word(e.field), Word("like"), Quoted(e.pattern)]
  }

  ghost predicate AllPrintable(conj: seq<Expr>) {
    conj != [] && forall i :: 0 <= i < |conj| ==> Printable(conj[i])
  }

  ghost predicate AllConjs(d: seq<seq<Expr>>) {
    forall i :: 0 <= i < |d| ==> AllPrintable(d[i])
  }

  /** No compared text contains a quote. */
  ghost predicate CleanConj(conj: seq<Expr>)
    requires AllPrintable(conj)
  {
    forall i :: 0 <= i < |conj| ==> QuoteFree(Target(conj[i]))
  }

  ghost predicate Clean(d: seq<seq<Expr>>)
    requires AllConjs(d)
  {
    forall i :: 0 <= i < |d| ==> CleanConj(d[i])
  }

  ghost function AtomTexts(conj: seq<Expr>): (r: seq<string>)
    requires AllPrintable(conj) || conj == []
    ensures |r| == |conj|
  {
    seq(|conj|, i requires 0 <= i < |conj| => AtomText(conj[i]))
  }

  ghost function ConjText(conj: seq<Expr>): string
    requires AllPrintable(conj)
  {
    Join(AtomTexts(conj), " and ")
  }

  ghost function ConjTexts(d: seq<seq<Expr>>): (r: seq<string>)
    requires AllConjs(d)
    ensures |r| == |d|
  {
    seq(|d|, i requires 0 <= i < |d| => ConjText(d[i]))
  }

  /** Alternatives of conjunctions of comparisons, as text. */
  ghost function Print(d: seq<seq<Expr>>): string
    requires AllConjs(d)
  {
    Join(ConjTexts(d), " or ")
  }

  ghost function AtomTokenLists(conj: seq<Expr>): (r: seq<seq<Token>>)
    requires AllPrintable(conj)
    ensures |r| == |conj|
  {
    seq(|conj|, i requires 0 <= i < |conj| => AtomTokens(conj[i]))
  }

  ghost function ConjTokens(conj: seq<Expr>): seq<Token>
    requires AllPrintable(conj)
  {
    Join(AtomTokenLists(conj), [Word("and")])
  }

  ghost function ConjTokenLists(d: seq<seq<Expr>>): (r: seq<seq<Token>>)
    requires AllConjs(d)
    ensures |r| == |d|
  {
    seq(|d|, i requires 0 <= i < |d| => ConjTokens(d[i]))
  }

  ghost function DisjTokens(d: seq<seq<Expr>>): seq<Token>
    requires AllConjs(d)
  {
    Join(ConjTokenLists(d), [Word("or")])
  }

  function ConjOf(conj: seq<Expr>): Expr
    requires conj != []
  {
    if |conj| == 1 then conj[0] else And(conj[0], ConjOf(conj[1..]))
  }

  /** Without alternatives the text is empty and restricts nothing. */
  ghost function DisjOf(d: seq<seq<Expr>>): Expr
    requires AllConjs(d)
  {
    if d == [] then Everything
    else if |d| == 1 then ConjOf(d[0]) else Or(ConjOf(d[0]), DisjOf(d[1..]))
  }

  // ----- a printed text is lexed into the intended tokens -----

  /** Fed between two tokens, the text adds exactly these tokens. */
  ghost predicate Lexes(text: string, tokens: seq<Token>) {
    forall before :: FeedAll(Lexer(before, Between), text) == Lexer(before + tokens, Between)
  }

  lemma {:induction false} FeedConcat(l: Lexer, a: string, b: string)
    ensures FeedAll(l, a + b) == FeedAll(FeedAll(l, a), b)
  {
    if b == [] {
      assert a + b == a;
    } else {
      var n := |b| - 1;
      assert (a + b)[..|a + b| - 1] == a + b[..n];
      FeedConcat(l, a, b[..n]);
    }
  }

  lemma LexesConcat(a: string, ta: seq<Token>, b: string, tb: seq<Token>)
    requires Lexes(a, ta) && Lexes(b, tb)
    ensures Lexes(a + b, ta + tb)
  {
    forall before ensures FeedAll(Lexer(before, Between), a + b) == Lexer(before + (ta + tb), Between) {
      FeedConcat(Lexer(before, Between), a, b);
      assert before + (ta + tb) == before + ta + tb;
    }
  }

  lemma {:induction false} LexesJoin(texts: seq<string>, tokens: seq<seq<Token>>, sep: string, sepTokens: seq<Token>)
    requires |texts| == |tokens| && Lexes(sep, sepTokens)
    requires forall i :: 0 <= i < |texts| ==> Lexes(texts[i], tokens[i])
    ensures Lexes(Join(texts, sep), Join(tokens, sepTokens))
  {
    if texts == [] {
      forall before ensures FeedAll(Lexer(before, Between), "") == Lexer(before + [], Between) {
        assert before + [] == before;
      }
    } else if |texts| > 1 {
      var n := |texts| - 1;
      LexesJoin(texts[..n], tokens[..n], sep, sepTokens);
      LexesConcat(Join(texts[..n], sep), Join(tokens[..n], sepTokens), sep, sepTokens);
      LexesConcat(Join(texts[..n], sep) + sep, Join(tokens[..n], sepTokens) + sepTokens, texts[n], tokens[n]);
    }
  }

  lemma {:induction false} FeedWord(before: seq<Token>, w: string)
    requires w != "" && forall k :: 0 <= k < |w| ==> IsWordChar(w[k])
    ensures FeedAll(Lexer(before, Between), w) == Lexer(before, InWord(w))
  {
    var front, c := w[..|w| - 1], w[|w| - 1];
    assert IsWordChar(c);
    assert front + [c] == w;
    if front == "" {
      assert FeedAll(Lexer(before, Between), front) == Lexer(before, Between);
      assert [c] == w;
      WordCharBegins(before, c);
    } else {
      FeedWord(before, front);
    }
    assert FeedAll(Lexer(before, Between), w) == Feed(FeedAll(Lexer(before, Between), front), c);
  }

  lemma {:induction false} FeedQuoted(before: seq<Token>, t: string)
    requires QuoteFree(t)
    ensures FeedAll(Lexer(before, InQuote("")), t) == Lexer(before, InQuote(t))
  {
    if t != [] {
      var n := |t| - 1;
      FeedQuoted(before, t[..n]);
      assert t == t[..n] + [t[n]];
    }
  }

  lemma FeedOne(l: Lexer, c: char)
    ensures FeedAll(l, [c]) == Feed(l, c)
  {
    assert [c][..0] == [];
    assert FeedAll(l, []) == l;
  }

  /** A quote-free text between quotes, whatever stands in it. */
  lemma LexesQuotation(t: string)
    requires QuoteFree(t)
    ensures Lexes("'" + t + "'", [Quoted(t)])
  {
    forall before ensures FeedAll(Lexer(before, Between), "'" + t + "'") == Lexer(before + [Quoted(t)], Between) {
      var start := Lexer(before, Between);
      FeedConcat(start, "'" + t, "'");
      FeedConcat(start, "'", t);
      FeedOne(start, '\'');
      FeedQuoted(before, t);
      FeedOne(Lexer(before, InQuote(t)), '\'');
    }
  }

  /** A word followed by a space, and a space before it, as in the connectives. */
  lemma LexesConnective(w: string)
    requires w != "" && forall k :: 0 <= k < |w| ==> IsWordChar(w[k])
    ensures Lexes(" " + w + " ", [Word(w)])
  {
    forall before ensures FeedAll(Lexer(before, Between), " " + w + " ") == Lexer(before + [Word(w)], Between) {
      var start := Lexer(before, Between);
      FeedConcat(start, " " + w, " ");
      FeedConcat(start, " ", w);
      FeedOne(start, ' ');
      FeedWord(before, w);
      FeedOne(Lexer(before, InWord(w)), ' ');
    }
  }

  lemma FieldEquals(f: string)
    requires IsField(f)
    ensures Lexes(f + "=", [Word(f), Equals])
  {
    forall before ensures FeedAll(Lexer(before, Between), f + "=") == Lexer(before + [Word(f), Equals], Between) {
      FeedConcat(Lexer(before, Between), f, "=");
      FeedWord(before, f);
      FeedOne(Lexer(before, InWord(f)), '=');
      assert before + [Word(f)] + [Equals] == before + [Word(f), Equals];
    }
  }

  lemma SpaceEndsWord(before: seq<Token>, w: string, rest: string)
    ensures FeedAll(Lexer(before, InWord(w)), " " + rest) == FeedAll(Lexer(before + [Word(w)], Between), " " + rest)
  {
    FeedConcat(Lexer(before, InWord(w)), " ", rest);
    FeedConcat(Lexer(before + [Word(w)], Between), " ", rest);
    FeedOne(Lexer(before, InWord(w)), ' ');
    FeedOne(Lexer(before + [Word(w)], Between), ' ');
  }

  lemma FieldLike(f: string)
    requires IsField(f)
    ensures Lexes(f + " like ", [Word(f), Word("like")])
  {
    LexesConnective("like");
    assert " " + "like" + " " == " like " && " " + "like " == " like ";
    forall before
      ensures FeedAll(Lexer(before, Between), f + " like ") == Lexer(before + [Word(f), Word("like")], Between)
    {
      FeedConcat(Lexer(before, Between), f, " like ");
      FeedWord(before, f);
      SpaceEndsWord(before, f, "like ");
      assert before + [Word(f)] + [Word("like")] == before + [Word(f), Word("like")];
    }
  }

  lemma AtomTextParts(e: Expr)
    requires IsAtom(e)
    ensures AtomText(e) == (e.field + (if e.Cmp? then "=" else " like ")) + ("'" + Target(e) + "'")
  {
    if e.Cmp? {
      assert "='" == "=" + "'";
      assert e.field + "='" == (e.field + "=") + "'";
    } else {
      assert " like '" == " like " + "'";
      assert e.field + " like '" == (e.field + " like ") + "'";
    }
  }

  lemma LexesAtom(e: Expr)
    requires Printable(e) && QuoteFree(Target(e))
    ensures Lexes(AtomText(e), AtomTokens(e))
  {
    var head := e.field + (if e.Cmp? then "=" else " like ");
    var tokens := [Word(e.field), if e.Cmp? then Equals else Word("like")];
    assert Lexes(head, tokens) by {
      if e.Cmp? { FieldEquals(e.field); } else { FieldLike(e.field); }
    }
    LexesQuotation(Target(e));
    LexesConcat(head, tokens, "'" + Target(e) + "'", [Quoted(Target(e))]);
    AtomTextParts(e);
    assert AtomTokens(e) == tokens + [Quoted(Target(e))];
  }

  lemma LexesConj(conj: seq<Expr>)
    requires AllPrintable(conj) && CleanConj(conj)
    ensures Lexes(ConjText(conj), ConjTokens(conj))
  {
    forall i | 0 <= i < |conj| ensures Lexes(AtomText(conj[i]), AtomTokens(conj[i])) {
      LexesAtom(conj[i]);
    }
    LexesConnective("and");
    assert " " + "and" + " " == " and ";
    LexesJoin(AtomTexts(conj), AtomTokenLists(conj), " and ", [Word("and")]);
  }

  lemma LexesPrint(d: seq<seq<Expr>>)
    requires AllConjs(d) && Clean(d)
    ensures Lexes(Print(d), DisjTokens(d))
  {
    forall i | 0 <= i < |d| ensures Lexes(ConjText(d[i]), ConjTokens(d[i])) {
      LexesConj(d[i]);
    }
    LexesConnective("or");
    assert " " + "or" + " " == " or ";
    LexesJoin(ConjTexts(d), ConjTokenLists(d), " or ", [Word("or")]);
  }

  // ----- the tokens are parsed into the intended expression -----

  lemma ParseAtomTokens(e: Expr, rest: seq<Token>)
    requires IsAtom(e)
    ensures ParseAtom(AtomTokens(e) + rest) == Some((e, rest))
  {
    assert (AtomTokens(e) + rest)[3..] == rest;
  }

  lemma ConjTokensFront(conj: seq<Expr>)
    requires AllPrintable(conj) && |conj| >= 2
    ensures AllPrintable(conj[1..])
    ensures ConjTokens(conj) == AtomTokens(conj[0]) + [Word("and")] + ConjTokens(conj[1..])
  {
    JoinFront(AtomTokenLists(conj), [Word("and")]);
    assert AtomTokenLists(conj)[1..] == AtomTokenLists(conj[1..]);
  }

  lemma DisjTokensFront(d: seq<seq<Expr>>)
    requires AllConjs(d) && |d| >= 2
    ensures AllConjs(d[1..])
    ensures DisjTokens(d) == ConjTokens(d[0]) + [Word("or")] + DisjTokens(d[1..])
  {
    JoinFront(ConjTokenLists(d), [Word("or")]);
    assert ConjTokenLists(d)[1..] == ConjTokenLists(d[1..]);
  }

  lemma ParseAnd(e: Expr, others: seq<Token>)
    requires IsAtom(e) && ParseConj(others).Some?
    ensures ParseConj(AtomTokens(e) + ([Word("and")] + others))
      == Some((And(e, ParseConj(others).value.0), ParseConj(others).value.1))
  {
    ParseAtomTokens(e, [Word("and")] + others);
    assert ([Word("and")] + others)[1..] == others;
  }

  lemma {:induction false} ParseConjTokens(conj: seq<Expr>, rest: seq<Token>)
    requires AllPrintable(conj) && (rest == [] || rest[0] != Word("and"))
    ensures ParseConj(ConjTokens(conj) + rest) == Some((ConjOf(conj), rest))
  {
    if |conj| == 1 {
      ParseAtomTokens(conj[0], rest);
    } else {
      ConjTokensFront(conj);
      ParseConjTokens(conj[1..], rest);
      var others := ConjTokens(conj[1..]) + rest;
      Regroup(AtomTokens(conj[0]), [Word("and")], ConjTokens(conj[1..]), rest);
      ParseAnd(conj[0], others);
    }
  }

  lemma ParseOr(conj: seq<Expr>, others: seq<Token>)
    requires AllPrintable(conj) && ParseDisj(others).Some?
    ensures ParseDisj(ConjTokens(conj) + ([Word("or")] + others))
      == Some((Or(ConjOf(conj), ParseDisj(others).value.0), ParseDisj(others).value.1))
  {
    ParseConjTokens(conj, [Word("or")] + others);
    assert ([Word("or")] + others)[1..] == others;
  }

  lemma {:induction false} ParseDisjTokens(d: seq<seq<Expr>>)
    requires d != [] && AllConjs(d)
    ensures ParseDisj(DisjTokens(d)) == Some((DisjOf(d), []))
  {
    if |d| == 1 {
      ParseConjTokens(d[0], []);
      assert ConjTokens(d[0]) + [] == DisjTokens(d);
    } else {
      DisjTokensFront(d);
      ParseDisjTokens(d[1..]);
      RegroupThree(ConjTokens(d[0]), [Word("or")], DisjTokens(d[1..]));
      ParseOr(d[0], DisjTokens(d[1..]));
    }
  }

  /** Printing alternatives of conjunctions of quote-free comparisons and parsing the text gives
      them back: the precedence of the connectives is the intended one, and no connective inside
      a quoted text counts. */
  lemma ParsePrint(d: seq<seq<Expr>>)
    requires AllConjs(d) && Clean(d)
    ensures Parse(Print(d)) == Some(DisjOf(d))
  {
    LexesPrint(d);
    if d != [] {
      ParseDisjTokens(d);
    }
    assert FeedAll(Lexer([], Between), Print(d)) == Lexer([] + DisjTokens(d), Between);
    assert [] + DisjTokens(d) == DisjTokens(d);
  }

  // ----- and only then -----

  ghost predicate CleanTokens(ts: seq<Token>) {
    forall i :: 0 <= i < |ts| && ts[i].Quoted? ==> QuoteFree(ts[i].text)
  }

  ghost predicate CleanLexer(l: Lexer) {
    l.Lexer? ==> CleanTokens(l.tokens) && (l.mode.InQuote? ==> QuoteFree(l.mode.text))
  }

  ghost predicate CleanExpr(e: Expr) {
    match e
    case Everything => true
    case Cmp(_, v) => QuoteFree(v)
    case Like(_, p) => QuoteFree(p)
    case And(l, r) => CleanExpr(l) && CleanExpr(r)
    case Or(l, r) => CleanExpr(l) && CleanExpr(r)
  }

  lemma FeedClean(l: Lexer, c: char)
    requires CleanLexer(l)
    ensures CleanLexer(Feed(l, c))
  {
  }

  lemma {:induction false} FeedAllClean(s: string)
    ensures CleanLexer(FeedAll(Lexer([], Between), s))
  {
    if s != [] {
      FeedAllClean(s[..|s| - 1]);
      FeedClean(FeedAll(Lexer([], Between), s[..|s| - 1]), s[|s| - 1]);
    }
  }

  lemma {:induction false} ParseConjClean(ts: seq<Token>)
    requires CleanTokens(ts) && ParseConj(ts).Some?
    ensures CleanExpr(ParseConj(ts).value.0) && CleanTokens(ParseConj(ts).value.1)
    decreases |ts|
  {
    var (first, rest) := ParseAtom(ts).value;
    if rest != [] && rest[0] == Word("and") {
      ParseConjClean(rest[1..]);
    }
  }

  lemma {:induction false} ParseDisjClean(ts: seq<Token>)
    requires CleanTokens(ts) && ParseDisj(ts).Some?
    ensures CleanExpr(ParseDisj(ts).value.0)
    decreases |ts|
  {
    ParseConjClean(ts);
    var (first, rest) := ParseConj(ts).value;
    if rest != [] && rest[0] == Word("or") {
      ParseDisjClean(rest[1..]);
    }
  }

  /** Whatever a text parses to compares with quote-free texts only. */
  lemma ParsedIsClean(s: string)
    requires Parse(s).Some?
    ensures CleanExpr(Parse(s).value)
  {
    FeedAllClean(s);
    var tokens := Lex(s).value;
    if tokens != [] {
      ParseDisjClean(tokens);
    }
  }

  lemma {:induction false} CleanConjOf(conj: seq<Expr>)
    requires AllPrintable(conj) && CleanExpr(ConjOf(conj))
    ensures CleanConj(conj)
  {
    if |conj| > 1 {
      CleanConjOf(conj[1..]);
      assert forall i :: 1 <= i < |conj| ==> conj[i] == conj[1..][i - 1];
    }
  }

  lemma {:induction false} CleanDisjOf(d: seq<seq<Expr>>)
    requires AllConjs(d) && CleanExpr(DisjOf(d))
    ensures Clean(d)
  {
    if d != [] {
      CleanConjOf(d[0]);
    }
    if |d| > 1 {
      CleanDisjOf(d[1..]);
      assert forall i :: 1 <= i < |d| ==> d[i] == d[1..][i - 1];
    }
  }

  /** A printed query is read back as intended exactly when its texts contain no quote. */
  lemma ParsePrintIff(d: seq<seq<Expr>>)
    requires AllConjs(d)
    ensures Parse(Print(d)) == Some(DisjOf(d)) <==> Clean(d)
  {
    if Clean(d) {
      ParsePrint(d);
    } else if Parse(Print(d)) == Some(DisjOf(d)) {
      ParsedIsClean(Print(d));
      CleanDisjOf(d);
      assert false;
    }
  }

  // ----- what the expression selects -----

  lemma {:induction false} EvalConj(conj: seq<Expr>, fields: string -> string)
    requires conj != []
    ensures Eval(ConjOf(conj), fields) <==> forall i :: 0 <= i < |conj| ==> Eval(conj[i], fields)
  {
    if |conj| > 1 {
      EvalConj(conj[1..], fields);
      assert forall i :: 1 <= i < |conj| ==> conj[i] == conj[1..][i - 1];
    }
  }

  lemma {:induction false} EvalDisj(d: seq<seq<Expr>>, fields: string -> string)
    requires AllConjs(d)
    ensures Eval(DisjOf(d), fields) <==> d == [] || exists i :: 0 <= i < |d| && Eval(ConjOf(d[i]), fields)
  {
    if |d| > 1 {
      EvalDisj(d[1..], fields);
      assert forall i :: 1 <= i < |d| ==> d[i] == d[1..][i - 1];
      if i :| 0 <= i < |d| - 1 && Eval(ConjOf(d[1..][i]), fields) {
        assert Eval(ConjOf(d[i + 1]), fields);
      }
    }
  }
}
