/**
  The quote-, comment- and dialect-aware SQL scanner (`_scan_sql`).

  `Scan` follows the loop of the source chunk by chunk and `ScanSql` is that loop.
  `Lexed` is an independent definition of what a chunk list must look like: every chunk
  is valid where it stands, and fits the text that follows it. The two are proved to agree
  (`ScanIsLexed`, `LexedIsScan`), so the clients of the scanner can be verified on chunk lists.
 */
module SqlScanner {
  import opened Collections

  type Delim = c: char | c == '\'' || c == '"' || c == '`' witness '"'

  datatype Quote = Closed | Open(delim: Delim)

  datatype Chunk = Chunk(text: string, isCode: bool)

  datatype ScanError = UnterminatedLiteral | UnterminatedComment

  datatype Scanned = Chunks(chunks: seq<Chunk>) | Refused(error: ScanError)

  datatype Step = Step(len: nat, isCode: bool, next: Quote) | Stuck

  predicate IsDelim(c: char) {
    c == '\'' || c == '"' || c == '`'
  }

  predicate StartsWith(s: string, a: char, b: char) {
    |s| >= 2 && s[0] == a && s[1] == b
  }

  /** The first newline of `s` at or after `from`, or the length of `s`. */
  function LineEnd(s: string, from: nat): (k: nat)
    requires from <= |s|
    ensures from <= k <= |s|
    ensures forall j :: from <= j < k ==> s[j] != '\n'
    ensures k < |s| ==> s[k] == '\n'
    decreases |s| - from
  {
    if from == |s| || s[from] == '\n' then from else LineEnd(s, from + 1)
  }

  predicate ClosesAt(s: string, k: int) {
    0 <= k < |s| - 1 && s[k] == '*' && s[k + 1] == '/'
  }

  /** The first comment terminator of `s` at or after `from`, or the length of `s`. */
  function BlockEnd(s: string, from: nat): (k: nat)
    requires from <= |s|
    ensures from <= k <= |s|
    ensures forall j :: from <= j < k ==> !ClosesAt(s, j)
    ensures k < |s| ==> ClosesAt(s, k)
    decreases |s| - from
  {
    if from == |s| || ClosesAt(s, from) then from else BlockEnd(s, from + 1)
  }

  /** The chunk the scanner takes off the front of `s` when `q` is the open quote. */
  function Next(s: string, q: Quote, backslash: bool): (r: Step)
    requires s != ""
    ensures r.Step? ==> 0 < r.len <= |s|
  {
    match q
    case Open(d) =>
      if backslash && s[0] == '\\' && d != '`' && |s| > 1 then Step(2, false, q)
      else if s[0] == d then
        if |s| > 1 && s[1] == d then Step(2, false, q) else Step(1, false, Closed)
      else Step(1, false, q)
    case Closed =>
      if IsDelim(s[0]) then Step(1, false, Open(s[0]))
      else if StartsWith(s, '-', '-') then Step(LineEnd(s, 0), false, Closed)
      else if StartsWith(s, '/', '*') then
        var k := BlockEnd(s, 2);
        if k == |s| then Stuck else Step(k + 2, false, Closed)
      else Step(1, true, Closed)
  }

  function Scan(s: string, q: Quote, backslash: bool): Scanned
    decreases |s|
  {
    if s == "" then
      if q.Open? then Refused(UnterminatedLiteral) else Chunks([])
    else
      match Next(s, q, backslash)
      case Stuck => Refused(UnterminatedComment)
      case Step(n, code, q') =>
        match Scan(s[n..], q', backslash)
        case Refused(e) => Refused(e)
        case Chunks(cs) => Chunks([Chunk(s[..n], code)] + cs)
  }

  /** The text a chunk list stands for. */
  function Text(cs: seq<Chunk>): string {
    if cs == [] then "" else cs[0].text + Text(cs[1..])
  }

  // ------------------------------------------------------------------
  // The scanning loop

  lemma LineEndShift(s: string, i: nat)
    requires i <= |s|
    ensures LineEnd(s, i) == i + LineEnd(s[i..], 0)
  {
    assert forall j :: 0 <= j < |s| - i ==> s[i..][j] == s[i + j];
    assert forall j :: i <= j < i + LineEnd(s[i..], 0) ==> s[j] == s[i..][j - i];
  }

  lemma BlockEndShift(s: string, i: nat)
    requires i + 2 <= |s|
    ensures BlockEnd(s, i + 2) == i + BlockEnd(s[i..], 2)
  {
    var t := s[i..];
    var a, b := BlockEnd(s, i + 2), i + BlockEnd(t, 2);
    assert forall j :: 0 <= j < |t| ==> t[j] == s[i + j];
    if a < b {
      assert ClosesAt(t, a - i);
    } else if b < a {
      assert ClosesAt(s, b);
    }
  }

  /** Prepending what the loop has already produced to what is left to scan. */
  function Prepend(done: seq<Chunk>, rest: Scanned): Scanned {
    match rest
    case Refused(e) => Refused(e)
    case Chunks(cs) => Chunks(done + cs)
  }

  /** The scan of `s` is what the loop has produced, followed by the scan of the rest from `i`. */
  ghost predicate Remains(s: string, done: seq<Chunk>, i: nat, q: Quote, backslash: bool)
    requires i <= |s|
  {
    Scan(s, Closed, backslash) == Prepend(done, Scan(s[i..], q, backslash))
  }

  lemma ScanStep(s: string, i: nat, n: nat, code: bool, q: Quote, q': Quote, backslash: bool, done: seq<Chunk>)
    requires i + n <= |s| && n > 0
    requires Next(s[i..], q, backslash) == Step(n, code, q')
    requires Remains(s, done, i, q, backslash)
    ensures Remains(s, done + [Chunk(s[i..i + n], code)], i + n, q', backslash)
  {
    assert s[i..][n..] == s[i + n..];
    assert s[i..][..n] == s[i..i + n];
    PrependAssoc(done, Chunk(s[i..i + n], code), Scan(s[i + n..], q', backslash));
  }

  lemma PrependAssoc(done: seq<Chunk>, c: Chunk, rest: Scanned)
    ensures Prepend(done, Prepend([c], rest)) == Prepend(done + [c], rest)
  {
    if rest.Chunks? {
      assert done + ([c] + rest.chunks) == (done + [c]) + rest.chunks;
    }
  }

  /** The decision of `Next` at position `i`, read off the whole text. */
  lemma NextAt(s: string, i: nat, q: Quote, backslash: bool)
    requires i < |s|
    ensures var paired := i + 1 < |s| && s[i + 1] == s[i];
            Next(s[i..], q, backslash) ==
            match q
            case Open(d) =>
              if backslash && s[i] == '\\' && d != '`' && i + 1 < |s| then Step(2, false, q)
              else if s[i] != d then Step(1, false, q)
              else if paired then Step(2, false, q) else Step(1, false, Closed)
            case Closed =>
              if IsDelim(s[i]) then Step(1, false, Open(s[i]))
              else if s[i] == '-' && paired then Step(LineEnd(s, i) - i, false, Closed)
              else if s[i] == '/' && i + 1 < |s| && s[i + 1] == '*' then
                if BlockEnd(s, i + 2) == |s| then Stuck else Step(BlockEnd(s, i + 2) + 2 - i, false, Closed)
              else Step(1, true, Closed)
  {
    var rest := s[i..];
    assert rest[0] == s[i] && (i + 1 < |s| ==> rest[1] == s[i + 1]);
    if q.Closed? {
      LineEndShift(s, i);
      if i + 1 < |s| {
        BlockEndShift(s, i);
      }
    }
  }

  method ScanSql(sql: string, backslash: bool) returns (r: Scanned)
    ensures r == Scan(sql, Closed, backslash)
  {
    var i, quote := 0, Closed;
    var out: seq<Chunk> := [];
    assert sql[0..] == sql;
    while i < |sql|
      invariant 0 <= i <= |sql|
      invariant Remains(sql, out, i, quote, backslash)
    {
      var ch := sql[i];
      NextAt(sql, i, quote, backslash);
      var n, code, next := 1, false, quote;
      match quote {
        case Open(d) =>
          if backslash && ch == '\\' && d != '`' && i + 1 < |sql| {
            n := 2;
          } else if ch == d {
            if i + 1 < |sql| && sql[i + 1] == d {
              n := 2;
            } else {
              next := Closed;
            }
          }
        case Closed =>
          if IsDelim(ch) {
            next := Open(ch);
          } else if ch == '-' && i + 1 < |sql| && sql[i + 1] == '-' {
            n := LineEnd(sql, i) - i;
          } else if ch == '/' && i + 1 < |sql| && sql[i + 1] == '*' {
            var end := BlockEnd(sql, i + 2);
            if end == |sql| {
              return Refused(UnterminatedComment);
            }
            n := end + 2 - i;
          } else {
            code := true;
          }
      }
      ScanStep(sql, i, n, code, quote, next, backslash, out);
      out := out + [Chunk(sql[i..i + n], code)];
      i, quote := i + n, next;
    }
    if quote.Open? {
      return Refused(UnterminatedLiteral);
    }
    assert out + [] == out;
    return Chunks(out);
  }

  // ------------------------------------------------------------------
  // The independent definition of a well-formed chunk list

  predicate IsLineComment(t: string) {
    StartsWith(t, '-', '-') && forall j :: 0 <= j < |t| ==> t[j] != '\n'
  }

  predicate IsBlockComment(t: string) {
    && |t| >= 4 && StartsWith(t, '/', '*') && ClosesAt(t, |t| - 2)
    && forall j :: 2 <= j < |t| - 2 ==> !ClosesAt(t, j)
  }

  /** `c` is a chunk the scanner may produce while `q` is the open quote. */
  predicate ValidChunk(c: Chunk, q: Quote, backslash: bool) {
    match q
    case Open(d) =>
      && !c.isCode
      && (|c.text| == 1
          || c.text == [d, d]
          || (backslash && d != '`' && |c.text| == 2 && c.text[0] == '\\'))
    case Closed =>
      if c.isCode then |c.text| == 1 && !IsDelim(c.text[0])
      else (|c.text| == 1 && IsDelim(c.text[0])) || IsLineComment(c.text) || IsBlockComment(c.text)
  }

  /** The open quote after `c`. */
  function After(c: Chunk, q: Quote): Quote {
    match q
    case Open(d) => if c.text == [d] then Closed else q
    case Closed => if !c.isCode && |c.text| == 1 && IsDelim(c.text[0]) then Open(c.text[0]) else Closed
  }

  /** `c` stays the chunk it is when the text `t` follows it. */
  predicate Fits(c: Chunk, q: Quote, backslash: bool, t: string) {
    t == "" ||
    match q
    case Open(d) =>
      && (c.text == [d] ==> t[0] != d)
      && !(backslash && d != '`' && c.text == "\\")
    case Closed =>
      && (IsLineComment(c.text) ==> t[0] == '\n')
      && (c.text == "-" ==> t[0] != '-')
      && (c.text == "/" ==> t[0] != '*')
  }

  predicate Lexed(cs: seq<Chunk>, q: Quote, backslash: bool) {
    if cs == [] then q.Closed?
    else
      && ValidChunk(cs[0], q, backslash)
      && Fits(cs[0], q, backslash, Text(cs[1..]))
      && Lexed(cs[1..], After(cs[0], q), backslash)
  }

  lemma NextIsValid(s: string, q: Quote, backslash: bool)
    requires s != "" && Next(s, q, backslash).Step?
    ensures var st := Next(s, q, backslash);
            var c := Chunk(s[..st.len], st.isCode);
            ValidChunk(c, q, backslash) && After(c, q) == st.next && Fits(c, q, backslash, s[st.len..])
  {
    var st := Next(s, q, backslash);
    var c := Chunk(s[..st.len], st.isCode);
    if q.Closed? && !IsDelim(s[0]) && StartsWith(s, '/', '*') && !StartsWith(s, '-', '-') {
      assert forall j :: 2 <= j < |c.text| - 2 ==> (ClosesAt(c.text, j) ==> ClosesAt(s, j));
      assert ClosesAt(s, st.len - 2);
      assert ClosesAt(c.text, |c.text| - 2);
    }
  }

  lemma ValidIsNext(c: Chunk, q: Quote, backslash: bool, t: string)
    requires ValidChunk(c, q, backslash) && Fits(c, q, backslash, t)
    ensures Next(c.text + t, q, backslash) == Step(|c.text|, c.isCode, After(c, q))
  {
    var s := c.text + t;
    if q.Closed? && IsLineComment(c.text) {
      var k := LineEnd(s, 0);
      assert forall j :: 0 <= j < |c.text| ==> s[j] == c.text[j];
      assert k >= |c.text|;
      if t != "" {
        assert s[|c.text|] == t[0];
      }
    } else if q.Closed? && IsBlockComment(c.text) {
      var k := BlockEnd(s, 2);
      assert forall j :: 0 <= j < |c.text| ==> s[j] == c.text[j];
      assert ClosesAt(s, |c.text| - 2);
      assert k < |c.text| - 2 ==> ClosesAt(c.text, k);
    }
  }

  lemma LexedCons(c: Chunk, rest: seq<Chunk>, q: Quote, backslash: bool)
    ensures Lexed([c] + rest, q, backslash) <==>
            ValidChunk(c, q, backslash) && Fits(c, q, backslash, Text(rest)) && Lexed(rest, After(c, q), backslash)
    ensures Text([c] + rest) == c.text + Text(rest)
  {
    assert ([c] + rest)[0] == c && ([c] + rest)[1..] == rest;
  }

  /** The first chunk of a scan, and the scan of what follows it. */
  lemma FirstChunk(s: string, q: Quote, backslash: bool) returns (c: Chunk, rest: seq<Chunk>)
    requires s != "" && Scan(s, q, backslash).Chunks?
    ensures 0 < |c.text| <= |s| && s == c.text + s[|c.text|..]
    ensures Scan(s, q, backslash) == Chunks([c] + rest)
    ensures Scan(s[|c.text|..], After(c, q), backslash) == Chunks(rest)
    ensures ValidChunk(c, q, backslash) && Fits(c, q, backslash, s[|c.text|..])
  {
    var st := Next(s, q, backslash);
    c, rest := Chunk(s[..st.len], st.isCode), Scan(s[st.len..], st.next, backslash).chunks;
    NextIsValid(s, q, backslash);
  }

  /** Everything the scanner accepts is a well-formed chunk list over the whole input. */
  lemma {:induction false} ScanIsLexed(s: string, q: Quote, backslash: bool)
    requires Scan(s, q, backslash).Chunks?
    ensures Lexed(Scan(s, q, backslash).chunks, q, backslash)
    ensures Text(Scan(s, q, backslash).chunks) == s
    decreases |s|
  {
    if s != "" {
      var c, rest := FirstChunk(s, q, backslash);
      ScanIsLexed(s[|c.text|..], After(c, q), backslash);
      LexedCons(c, rest, q, backslash);
    }
  }

  /** Every well-formed chunk list is what the scanner makes of its text. */
  lemma {:induction false} LexedIsScan(cs: seq<Chunk>, q: Quote, backslash: bool)
    requires Lexed(cs, q, backslash)
    ensures Scan(Text(cs), q, backslash) == Chunks(cs)
    decreases |cs|
  {
    if cs != [] {
      var c, t, q' := cs[0], Text(cs[1..]), After(cs[0], q);
      if q'.Open? {
        assert cs[1..] != [];
        assert ValidChunk(cs[1..][0], q', backslash);
        assert t != "";
      }
      ValidIsNext(c, q, backslash, t);
      LexedIsScan(cs[1..], q', backslash);
      assert (c.text + t)[|c.text|..] == t;
      assert (c.text + t)[..|c.text|] == c.text;
      assert cs == [c] + cs[1..];
    }
  }

  /** The scanner accepts `s` with chunks `cs` exactly when `cs` is a well-formed chunk list for `s`. */
  lemma ScanAgreesWithGrammar(s: string, cs: seq<Chunk>, backslash: bool)
    ensures Scan(s, Closed, backslash) == Chunks(cs) <==> Lexed(cs, Closed, backslash) && Text(cs) == s
  {
    if Scan(s, Closed, backslash) == Chunks(cs) {
      ScanIsLexed(s, Closed, backslash);
    }
    if Lexed(cs, Closed, backslash) && Text(cs) == s {
      LexedIsScan(cs, Closed, backslash);
    }
  }

  // ------------------------------------------------------------------
  // What is refused, and why

  /** `cs` is well formed as far as it goes, with `rest` after it. */
  predicate LexedBefore(cs: seq<Chunk>, q: Quote, backslash: bool, rest: string) {
    cs != [] ==>
      && ValidChunk(cs[0], q, backslash)
      && Fits(cs[0], q, backslash, Text(cs[1..]) + rest)
      && LexedBefore(cs[1..], After(cs[0], q), backslash, rest)
  }

  /** The open quote after all of `cs`. */
  function QuoteAfter(cs: seq<Chunk>, q: Quote): Quote {
    if cs == [] then q else QuoteAfter(cs[1..], After(cs[0], q))
  }

  /** `rest` opens a block comment that nothing ends. */
  predicate OpensForGood(rest: string) {
    StartsWith(rest, '/', '*') && forall k :: 2 <= k < |rest| ==> !ClosesAt(rest, k)
  }

  predicate IsRefusal(cs: seq<Chunk>, rest: string, q: Quote, error: ScanError) {
    match error
    case UnterminatedLiteral => rest == "" && QuoteAfter(cs, q).Open?
    case UnterminatedComment => OpensForGood(rest) && QuoteAfter(cs, q).Closed?
  }

  lemma ScanOne(c: Chunk, q: Quote, backslash: bool, t: string)
    requires ValidChunk(c, q, backslash) && Fits(c, q, backslash, t)
    ensures Scan(c.text + t, q, backslash) == Prepend([c], Scan(t, After(c, q), backslash))
  {
    ValidIsNext(c, q, backslash, t);
    assert (c.text + t)[..|c.text|] == c.text && (c.text + t)[|c.text|..] == t;
  }

  /** The chunk in front of a text, whatever comes of the rest. */
  lemma FrontChunk(s: string, q: Quote, backslash: bool) returns (c: Chunk)
    requires s != "" && Next(s, q, backslash).Step?
    ensures 0 < |c.text| <= |s| && s == c.text + s[|c.text|..]
    ensures ValidChunk(c, q, backslash) && Fits(c, q, backslash, s[|c.text|..])
  {
    var st := Next(s, q, backslash);
    c := Chunk(s[..st.len], st.isCode);
    NextIsValid(s, q, backslash);
  }

  lemma LexedBeforeCons(c: Chunk, cs: seq<Chunk>, q: Quote, backslash: bool, rest: string)
    requires ValidChunk(c, q, backslash) && Fits(c, q, backslash, Text(cs) + rest)
    requires LexedBefore(cs, After(c, q), backslash, rest)
    ensures LexedBefore([c] + cs, q, backslash, rest)
    ensures QuoteAfter([c] + cs, q) == QuoteAfter(cs, After(c, q))
    ensures Text([c] + cs) + rest == c.text + (Text(cs) + rest)
  {
    assert ([c] + cs)[0] == c && ([c] + cs)[1..] == cs;
  }

  /** Where a refused text goes wrong. */
  lemma {:induction false} RefusalFound(s: string, q: Quote, backslash: bool) returns (cs: seq<Chunk>, rest: string)
    requires Scan(s, q, backslash).Refused?
    ensures s == Text(cs) + rest && LexedBefore(cs, q, backslash, rest)
    ensures IsRefusal(cs, rest, q, Scan(s, q, backslash).error)
    decreases |s|
  {
    if s == "" || Next(s, q, backslash).Stuck? {
      cs, rest := [], s;
    } else {
      var c := FrontChunk(s, q, backslash);
      var t := s[|c.text|..];
      ScanOne(c, q, backslash, t);
      cs, rest := RefusalFound(t, After(c, q), backslash);
      LexedBeforeCons(c, cs, q, backslash, rest);
      cs := [c] + cs;
    }
  }

  /** A text that goes wrong there is refused with that error. */
  lemma {:induction false} RefusalRefused(cs: seq<Chunk>, rest: string, q: Quote, backslash: bool, error: ScanError)
    requires LexedBefore(cs, q, backslash, rest) && IsRefusal(cs, rest, q, error)
    ensures Scan(Text(cs) + rest, q, backslash) == Refused(error)
    decreases |cs|
  {
    if cs == [] {
      assert Text(cs) + rest == rest;
    } else {
      var t := Text(cs[1..]) + rest;
      RefusalRefused(cs[1..], rest, After(cs[0], q), backslash, error);
      ScanOne(cs[0], q, backslash, t);
      ConcatAssoc(cs[0].text, Text(cs[1..]), rest);
    }
  }

  /** The scanner refuses a text with an unterminated literal exactly if its chunks end inside a quote,
      and with an unterminated comment exactly if they lead up to a block comment that nothing ends. */
  lemma RefusalsAreExact(s: string, backslash: bool, error: ScanError)
    ensures Scan(s, Closed, backslash) == Refused(error) <==>
            exists cs, rest :: s == Text(cs) + rest && LexedBefore(cs, Closed, backslash, rest)
                               && IsRefusal(cs, rest, Closed, error)
  {
    if Scan(s, Closed, backslash) == Refused(error) {
      var cs, rest := RefusalFound(s, Closed, backslash);
    }
    if cs, rest :| s == Text(cs) + rest && LexedBefore(cs, Closed, backslash, rest)
                   && IsRefusal(cs, rest, Closed, error) {
      RefusalRefused(cs, rest, Closed, backslash, error);
    }
  }

  /** Without a backslash in the input the two literal dialects cannot be told apart. */
  lemma {:induction false} DialectsAgree(s: string, q: Quote)
    requires '\\' !in s
    ensures Scan(s, q, true) == Scan(s, q, false)
    decreases |s|
  {
    if s != "" {
      assert s[0] in s;
      assert Next(s, q, true) == Next(s, q, false);
      if Next(s, q, true).Step? {
        DialectsAgree(s[Next(s, q, true).len..], Next(s, q, true).next);
      }
    }
  }

  // ------------------------------------------------------------------
  // Texts whose chunks are known

  predicate NoCode(cs: seq<Chunk>) {
    forall i :: 0 <= i < |cs| ==> !cs[i].isCode
  }

  lemma {:induction false} InsideQuotes(d: Delim, t: string, backslash: bool)
    requires d !in t && '\\' !in t
    ensures Scan(t + [d], Open(d), backslash).Chunks? && NoCode(Scan(t + [d], Open(d), backslash).chunks)
  {
    if t == "" {
      var c := Chunk([d], false);
      assert t + [d] == c.text + "";
      ScanOne(c, Open(d), backslash, "");
    } else {
      var c, rest := Chunk([t[0]], false), t[1..] + [d];
      InsideQuotes(d, t[1..], backslash);
      assert t[0] in t;
      ScanOne(c, Open(d), backslash, rest);
      assert t + [d] == c.text + rest;
    }
  }

  /** A text in quotes of any of the three kinds is no code, in either dialect. */
  lemma QuotedIsNoCode(d: char, t: string, backslash: bool)
    requires (d == '\'' || d == '"' || d == '`') && d !in t && '\\' !in t
    ensures var r := Scan([d] + t + [d], Closed, backslash);
            r.Chunks? && NoCode(r.chunks)
  {
    var c, rest := Chunk([d], false), t + [d];
    InsideQuotes(d, t, backslash);
    ScanOne(c, Closed, backslash, rest);
    assert [d] + t + [d] == c.text + rest;
  }

  /** A line comment up to its newline, and a block comment up to its first end, are no code. */
  lemma CommentIsNoCode(t: string, backslash: bool)
    ensures '\n' !in t ==> Scan("--" + t, Closed, backslash) == Chunks([Chunk("--" + t, false)])
    ensures (forall j :: 2 <= j < |t| + 2 ==> !ClosesAt("/*" + t + "*/", j)) ==>
              Scan("/*" + t + "*/", Closed, backslash) == Chunks([Chunk("/*" + t + "*/", false)])
  {
    if '\n' !in t {
      var c := Chunk("--" + t, false);
      assert IsLineComment(c.text);
      ScanOne(c, Closed, backslash, "");
      assert c.text + "" == c.text;
    }
    if forall j :: 2 <= j < |t| + 2 ==> !ClosesAt("/*" + t + "*/", j) {
      var c := Chunk("/*" + t + "*/", false);
      assert ClosesAt(c.text, |c.text| - 2) && IsBlockComment(c.text);
      ScanOne(c, Closed, backslash, "");
      assert c.text + "" == c.text;
    }
  }

  /** A text without quotes, `-` and `/` is code, character by character. */
  lemma {:induction false} PlainIsCode(t: string, backslash: bool)
    requires forall c :: c in t ==> c != '\'' && c != '"' && c != '`' && c != '-' && c != '/'
    ensures var r := Scan(t, Closed, backslash);
            r.Chunks? && |r.chunks| == |t| && forall i :: 0 <= i < |t| ==> r.chunks[i] == Chunk([t[i]], true)
  {
    if t != "" {
      var c, rest := Chunk([t[0]], true), t[1..];
      assert t[0] in t && forall c :: c in rest ==> c in t;
      PlainIsCode(rest, backslash);
      ScanOne(c, Closed, backslash, rest);
      assert t == c.text + rest;
    }
  }

  /** A backslash before the closing quote tells the dialects apart: it escapes the quote, or it does not;
      in a quoted identifier with backquotes it never does. */
  lemma BackslashTellsDialectsApart(d: Delim)
    ensures d != '`' ==> Scan([d, '\\', d], Closed, true) == Refused(UnterminatedLiteral)
    ensures Scan([d, '\\', d], Closed, false).Chunks?
    ensures d == '`' ==> Scan([d, '\\', d], Closed, true).Chunks?
  {
    var s := [d, '\\', d];
    var open, slash, close := Chunk([d], false), Chunk("\\", false), Chunk([d], false);
    assert s == open.text + ['\\', d] && ['\\', d] == slash.text + [d] && [d] == close.text + "";
    ScanOne(open, Closed, false, ['\\', d]);
    ScanOne(slash, Open(d), false, [d]);
    ScanOne(close, Open(d), false, "");
    ScanOne(open, Closed, true, ['\\', d]);
    if d == '`' {
      ScanOne(slash, Open(d), true, [d]);
      ScanOne(close, Open(d), true, "");
    } else {
      var escaped := Chunk(['\\', d], false);
      assert ['\\', d] == escaped.text + "";
      ScanOne(escaped, Open(d), true, "");
    }
  }
}
