/** Splitting SQL on the `;` that are code (`_split_statements`), and rescanning the result. */
module SqlSplit {
  import opened Collections
  import opened Wrappers
  import opened SqlScanner
  import opened SqlRewrite

  datatype SplitError = Unscannable(error: ScanError) | ParameterizedMultiStatement(count: nat)

  const SEMICOLON := Chunk(";", true)

  // ------------------------------------------------------------------
  // str.strip

  /** The characters Python's `str.strip` removes. */
  predicate IsSpace(c: char) {
    var n := c as int;
    || 9 <= n <= 13 || 28 <= n <= 32 || n == 0x85 || n == 0xa0 || n == 0x1680
    || 0x2000 <= n <= 0x200a || n == 0x2028 || n == 0x2029 || n == 0x202f || n == 0x205f || n == 0x3000
  }

  function LStrip(s: string): (t: string)
    ensures t == "" || !IsSpace(t[0])
  {
    if s != "" && IsSpace(s[0]) then LStrip(s[1..]) else s
  }

  function RStrip(s: string): (t: string)
    ensures t <= s
    ensures t == "" || !IsSpace(t[|t| - 1])
    ensures forall i :: |t| <= i < |s| ==> IsSpace(s[i])
  {
    if s != "" && IsSpace(s[|s| - 1]) then RStrip(s[..|s| - 1]) else s
  }

  function Strip(s: string): string {
    RStrip(LStrip(s))
  }

  /** A non-empty text that stripping leaves alone. */
  predicate Tight(s: string) {
    s != "" && !IsSpace(s[0]) && !IsSpace(s[|s| - 1])
  }

  lemma StripIsTight(s: string)
    ensures Strip(s) == "" || Tight(Strip(s))
  {
    var l := LStrip(s);
    var t := RStrip(l);
    if t != "" {
      assert t[0] == l[0];
    }
  }

  lemma TightStrips(s: string)
    requires Tight(s)
    ensures Strip(s) == s && Strip(s + "\n") == s
  {
    assert LStrip(s) == s && LStrip(s + "\n") == s + "\n";
    assert (s + "\n")[..|s|] == s;
  }

  lemma RStripUnique(s: string, t: string)
    requires t <= s && (t == "" || !IsSpace(t[|t| - 1]))
    requires forall i :: |t| <= i < |s| ==> IsSpace(s[i])
    ensures RStrip(s) == t
  {
    var r := RStrip(s);
    assert r == s[..|r|] && t == s[..|t|];
    assert r != "" ==> !IsSpace(s[|r| - 1]);
    assert t != "" ==> !IsSpace(s[|t| - 1]);
    assert |r| == |t|;
  }

  lemma RStripConcat(a: string, b: string)
    ensures RStrip(a + b) == if RStrip(b) == "" then RStrip(a) else a + RStrip(b)
  {
    var s, rb := a + b, RStrip(b);
    assert forall i :: |a| <= i < |s| ==> s[i] == b[i - |a|];
    if rb == "" {
      RStripUnique(s, RStrip(a));
    } else {
      assert (a + rb)[|a + rb| - 1] == rb[|rb| - 1];
      RStripUnique(s, a + rb);
    }
  }

  // ------------------------------------------------------------------
  // The split

  /** The pieces of a chunk list between its code `;`. */
  function Pieces(cs: seq<Chunk>): (ps: seq<seq<Chunk>>)
    ensures |ps| > 0
    ensures forall i :: 0 <= i < |ps| ==> SEMICOLON !in ps[i]
  {
    if cs == [] then [[]]
    else if cs[0] == SEMICOLON then [[]] + Pieces(cs[1..])
    else [[cs[0]] + Pieces(cs[1..])[0]] + Pieces(cs[1..])[1..]
  }

  function Texts(ps: seq<seq<Chunk>>): seq<string> {
    if ps == [] then [] else [Text(ps[0])] + Texts(ps[1..])
  }

  /** `[s.strip() for s in parts if s.strip()]` */
  function Stripped(parts: seq<string>): seq<string> {
    if parts == [] then []
    else (if Strip(parts[0]) != "" then [Strip(parts[0])] else []) + Stripped(parts[1..])
  }

  function Statements(cs: seq<Chunk>): seq<string> {
    Stripped(Texts(Pieces(cs)))
  }

  function Split(sql: string, params: nat, backslash: bool): Result<seq<string>, SplitError> {
    match Scan(sql, Closed, backslash)
    case Refused(e) => Err(Unscannable(e))
    case Chunks(cs) =>
      if params > 0 && |Statements(cs)| > 1 then Err(ParameterizedMultiStatement(|Statements(cs)|))
      else Ok(Statements(cs))
  }

  /** What the splitting loop still has to produce, given its current buffer. */
  function Finish(buf: string, cs: seq<Chunk>): seq<string> {
    [buf + Text(Pieces(cs)[0])] + Texts(Pieces(cs)[1..])
  }

  lemma FinishBegins(cs: seq<Chunk>)
    ensures [] + Finish("", cs) == Texts(Pieces(cs))
  {
    var ps := Pieces(cs);
    assert "" + Text(ps[0]) == Text(ps[0]);
    assert Texts(ps) == [Text(ps[0])] + Texts(ps[1..]);
  }

  lemma FinishEnds(buf: string)
    ensures Finish(buf, []) == [buf]
  {
    assert buf + "" == buf && Pieces([])[1..] == [];
  }

  lemma FinishStep(done: seq<string>, buf: string, cs: seq<Chunk>, k: nat)
    requires k < |cs|
    ensures done + Finish(buf, cs[k..])
         == if cs[k] == SEMICOLON then (done + [buf]) + Finish("", cs[k + 1..])
            else done + Finish(buf + cs[k].text, cs[k + 1..])
  {
    var c, rest := cs[k], Pieces(cs[k + 1..]);
    assert cs[k..][0] == c && cs[k..][1..] == cs[k + 1..];
    assert rest == [rest[0]] + rest[1..];
    if c == SEMICOLON {
      assert Pieces(cs[k..])[1..] == rest;
      assert buf + Text([]) == buf && "" + Text(rest[0]) == Text(rest[0]);
      assert done + ([buf] + Finish("", cs[k + 1..])) == (done + [buf]) + Finish("", cs[k + 1..]);
    } else {
      var first := [c] + rest[0];
      assert Pieces(cs[k..])[0] == first && Pieces(cs[k..])[1..] == rest[1..];
      assert first[1..] == rest[0];
      assert buf + (c.text + Text(rest[0])) == (buf + c.text) + Text(rest[0]);
    }
  }

  method SplitStatements(sql: string, params: nat, backslash: bool)
    returns (r: Result<seq<string>, SplitError>)
    ensures r == Split(sql, params, backslash)
  {
    var scanned := ScanSql(sql, backslash);
    if scanned.Refused? {
      return Err(Unscannable(scanned.error));
    }
    var cs := scanned.chunks;
    var parts, buf: string := [], "";
    assert cs[0..] == cs;
    FinishBegins(cs);
    for k := 0 to |cs|
      invariant Texts(Pieces(cs)) == parts + Finish(buf, cs[k..])
    {
      FinishStep(parts, buf, cs, k);
      if cs[k] == SEMICOLON {
        parts := parts + [buf];
        buf := "";
      } else {
        buf := buf + cs[k].text;
      }
    }
    FinishEnds(buf);
    assert cs[|cs|..] == [];
    parts := parts + [buf];
    assert parts == Texts(Pieces(cs));
    var statements := StripAll(parts);
    if params > 0 && |statements| > 1 {
      return Err(ParameterizedMultiStatement(|statements|));
    }
    return Ok(statements);
  }

  lemma StrippedStep(done: seq<string>, parts: seq<string>, k: nat)
    requires k < |parts|
    ensures done + Stripped(parts[k..])
         == (if Strip(parts[k]) != "" then done + [Strip(parts[k])] else done) + Stripped(parts[k + 1..])
  {
    assert parts[k..][0] == parts[k] && parts[k..][1..] == parts[k + 1..];
  }

  method StripAll(parts: seq<string>) returns (statements: seq<string>)
    ensures statements == Stripped(parts)
  {
    statements := [];
    assert parts[0..] == parts && [] + Stripped(parts) == Stripped(parts);
    for k := 0 to |parts|
      invariant Stripped(parts) == statements + Stripped(parts[k..])
    {
      StrippedStep(statements, parts, k);
      var t := Strip(parts[k]);
      if t != "" {
        statements := statements + [t];
      }
    }
    assert parts[|parts|..] == [] && statements + [] == statements;
  }

  // ------------------------------------------------------------------
  // Splitting loses nothing

  function JoinWith(parts: seq<string>, sep: string): string {
    if parts == [] then ""
    else if |parts| == 1 then parts[0]
    else parts[0] + sep + JoinWith(parts[1..], sep)
  }

  lemma JoinFirst(a: string, p: string, ps: seq<string>, sep: string)
    ensures JoinWith([a + p] + ps, sep) == a + JoinWith([p] + ps, sep)
  {
    assert ([a + p] + ps)[1..] == ps && ([p] + ps)[1..] == ps;
    if ps != [] {
      assert (a + p) + sep + JoinWith(ps, sep) == a + (p + sep + JoinWith(ps, sep));
    }
  }

  lemma {:induction false} PiecesRebuild(cs: seq<Chunk>)
    ensures JoinWith(Texts(Pieces(cs)), ";") == Text(cs)
  {
    if cs != [] {
      var rest := Pieces(cs[1..]);
      PiecesRebuild(cs[1..]);
      if cs[0] == SEMICOLON {
        assert Texts(Pieces(cs))[1..] == Texts(rest);
      } else {
        var first := [cs[0]] + rest[0];
        assert first[1..] == rest[0];
        assert Pieces(cs)[1..] == rest[1..];
        JoinFirst(cs[0].text, Text(rest[0]), Texts(rest[1..]), ";");
      }
    }
  }

  /** Before stripping, the pieces joined by `;` are the input. */
  lemma SplitRebuildsInput(sql: string, backslash: bool)
    requires Scan(sql, Closed, backslash).Chunks?
    ensures JoinWith(Texts(Pieces(Scan(sql, Closed, backslash).chunks)), ";") == sql
  {
    ScanIsLexed(sql, Closed, backslash);
    PiecesRebuild(Scan(sql, Closed, backslash).chunks);
  }

  // ------------------------------------------------------------------
  // Every statement scans on its own

  lemma PieceHead(cs: seq<Chunk>)
    ensures Pieces(cs)[0] == [] || (cs != [] && Pieces(cs)[0][0] == cs[0])
  {
  }

  lemma {:induction false} PiecesLexed(cs: seq<Chunk>, q: Quote, backslash: bool)
    requires Lexed(cs, q, backslash)
    ensures Lexed(Pieces(cs)[0], q, backslash)
    ensures forall i :: 1 <= i < |Pieces(cs)| ==> Lexed(Pieces(cs)[i], Closed, backslash)
  {
    if cs != [] {
      var rest, q' := Pieces(cs[1..]), After(cs[0], q);
      PiecesLexed(cs[1..], q', backslash);
      if cs[0] == SEMICOLON {
        forall i | 1 <= i < |Pieces(cs)| ensures Lexed(Pieces(cs)[i], Closed, backslash) {
          assert Pieces(cs)[i] == rest[i - 1];
        }
      } else {
        PieceHead(cs[1..]);
        assert Pieces(cs)[0][1..] == rest[0];
        if rest[0] != [] {
          assert ValidChunk(cs[1..][0], q', backslash);
          assert Text(rest[0])[0] == cs[1].text[0] == Text(cs[1..])[0];
        }
      }
    }
  }

  function DropSpaces(cs: seq<Chunk>): seq<Chunk> {
    if cs != [] && cs[0].isCode && |cs[0].text| == 1 && IsSpace(cs[0].text[0]) then DropSpaces(cs[1..]) else cs
  }

  lemma {:induction false} DropSpacesStrips(cs: seq<Chunk>, backslash: bool)
    requires Lexed(cs, Closed, backslash)
    ensures Lexed(DropSpaces(cs), Closed, backslash) && Text(DropSpaces(cs)) == LStrip(Text(cs))
    ensures SEMICOLON !in cs ==> SEMICOLON !in DropSpaces(cs)
  {
    if cs != [] {
      if cs[0].isCode && IsSpace(cs[0].text[0]) {
        DropSpacesStrips(cs[1..], backslash);
        assert Text(cs)[1..] == Text(cs[1..]);
      } else {
        assert !IsSpace(Text(cs)[0]);
      }
    }
  }

  /** Stripping the end of a text only removes code spaces and shortens a trailing line comment. */
  function TrimEnd(cs: seq<Chunk>): seq<Chunk> {
    if cs == [] then []
    else
      var rest := TrimEnd(cs[1..]);
      if rest != [] then [cs[0]] + rest
      else if RStrip(cs[0].text) == "" then []
      else [Chunk(RStrip(cs[0].text), cs[0].isCode)]
  }

  lemma {:induction false} TrimEndText(cs: seq<Chunk>)
    requires forall i :: 0 <= i < |cs| ==> cs[i].text != ""
    ensures Text(TrimEnd(cs)) == RStrip(Text(cs))
    ensures TrimEnd(cs) == [] <==> RStrip(Text(cs)) == ""
    ensures TrimEnd(cs) != [] ==> TrimEnd(cs)[0].text != ""
  {
    if cs != [] {
      TrimEndText(cs[1..]);
      RStripConcat(cs[0].text, Text(cs[1..]));
      var rest := TrimEnd(cs[1..]);
      if rest != [] {
        assert ([cs[0]] + rest)[1..] == rest;
      } else if RStrip(cs[0].text) != "" {
        assert [Chunk(RStrip(cs[0].text), cs[0].isCode)][1..] == [];
      }
    }
  }

  lemma {:induction false} LexedNonEmpty(cs: seq<Chunk>, q: Quote, backslash: bool)
    requires Lexed(cs, q, backslash)
    ensures forall i :: 0 <= i < |cs| ==> cs[i].text != ""
  {
    if cs != [] {
      LexedNonEmpty(cs[1..], After(cs[0], q), backslash);
      assert forall i :: 1 <= i < |cs| ==> cs[i] == cs[1..][i - 1];
    }
  }

  lemma TrimmedComment(t: string)
    requires IsLineComment(t)
    ensures IsLineComment(RStrip(t))
  {
    var r := RStrip(t);
    assert !IsSpace('-');
    assert !IsSpace(t[1]) && |r| >= 2;
    assert forall j :: 0 <= j < |r| ==> r[j] == t[j];
  }

  lemma LastKept(t: string)
    requires t != "" && !IsSpace(t[|t| - 1])
    ensures RStrip(t) == t
  {
  }

  lemma TrimLast(c: Chunk, q: Quote, backslash: bool)
    requires ValidChunk(c, q, backslash) && After(c, q).Closed?
    ensures var r := RStrip(c.text);
            && (r != "" ==> Lexed([Chunk(r, c.isCode)], q, backslash))
            && (r == "" ==> q.Closed?)
            && (c.isCode ==> r == "" || r == c.text)
  {
    var r := RStrip(c.text);
    if q.Closed? && IsLineComment(c.text) {
      TrimmedComment(c.text);
    } else if q.Closed? && c.isCode && IsSpace(c.text[0]) {
      assert c.text[..0] == "";
    } else {
      assert !IsSpace(c.text[|c.text| - 1]);
      LastKept(c.text);
    }
    LexedCons(Chunk(r, c.isCode), [], q, backslash);
    assert [Chunk(r, c.isCode)] + [] == [Chunk(r, c.isCode)];
  }

  lemma {:induction false} TrimEndLexed(cs: seq<Chunk>, q: Quote, backslash: bool)
    requires Lexed(cs, q, backslash)
    ensures Lexed(TrimEnd(cs), q, backslash)
    ensures q.Open? ==> TrimEnd(cs) != []
    ensures SEMICOLON !in cs ==> SEMICOLON !in TrimEnd(cs)
  {
    if cs != [] {
      var c, q' := cs[0], After(cs[0], q);
      TrimEndLexed(cs[1..], q', backslash);
      LexedNonEmpty(cs[1..], q', backslash);
      TrimEndText(cs[1..]);
      var rest := TrimEnd(cs[1..]);
      if rest != [] {
        LexedCons(c, rest, q, backslash);
        assert Text(rest)[0] == Text(cs[1..])[0];
      } else {
        TrimLast(c, q, backslash);
      }
    }
  }

  /** A statement: a tight text that scans cleanly and holds no code `;`. */
  predicate IsStatement(s: string, backslash: bool) {
    && Tight(s)
    && Scan(s, Closed, backslash).Chunks?
    && SEMICOLON !in Scan(s, Closed, backslash).chunks
  }

  lemma PieceStripped(p: seq<Chunk>, backslash: bool)
    requires Lexed(p, Closed, backslash) && SEMICOLON !in p
    requires Strip(Text(p)) != ""
    ensures IsStatement(Strip(Text(p)), backslash)
  {
    var d := DropSpaces(p);
    DropSpacesStrips(p, backslash);
    TrimEndLexed(d, Closed, backslash);
    LexedNonEmpty(d, Closed, backslash);
    TrimEndText(d);
    LexedIsScan(TrimEnd(d), Closed, backslash);
    StripIsTight(Text(p));
  }

  lemma {:induction false} PiecesStripped(ps: seq<seq<Chunk>>, backslash: bool)
    requires forall i :: 0 <= i < |ps| ==> Lexed(ps[i], Closed, backslash) && SEMICOLON !in ps[i]
    ensures forall i :: 0 <= i < |Stripped(Texts(ps))| ==> IsStatement(Stripped(Texts(ps))[i], backslash)
  {
    if ps != [] {
      PiecesStripped(ps[1..], backslash);
      assert Texts(ps)[1..] == Texts(ps[1..]);
      if Strip(Text(ps[0])) != "" {
        PieceStripped(ps[0], backslash);
      }
    }
  }

  /** Every returned statement scans cleanly alone, with no code `;` left. */
  lemma SplitGivesStatements(sql: string, params: nat, backslash: bool)
    requires Split(sql, params, backslash).Ok?
    ensures var ss := Split(sql, params, backslash).value;
            forall i :: 0 <= i < |ss| ==> IsStatement(ss[i], backslash)
  {
    var cs := Scan(sql, Closed, backslash).chunks;
    ScanIsLexed(sql, Closed, backslash);
    PiecesLexed(cs, Closed, backslash);
    PiecesStripped(Pieces(cs), backslash);
  }

  // ------------------------------------------------------------------
  // Splitting again

  lemma {:induction false} NoSemicolonOnePiece(cs: seq<Chunk>)
    requires SEMICOLON !in cs
    ensures Pieces(cs) == [cs]
  {
    if cs != [] {
      NoSemicolonOnePiece(cs[1..]);
      assert cs == [cs[0]] + cs[1..];
    }
  }

  lemma {:induction false} PiecesConcat(a: seq<Chunk>, b: seq<Chunk>)
    requires SEMICOLON !in a
    ensures Pieces(a + [SEMICOLON] + b) == [a] + Pieces(b)
  {
    var all := a + [SEMICOLON] + b;
    if a == [] {
      assert all[1..] == b;
    } else {
      PiecesConcat(a[1..], b);
      assert all[0] == a[0] && all[1..] == a[1..] + [SEMICOLON] + b;
      assert a == [a[0]] + a[1..];
    }
  }

  lemma FitsBeforeNewline(a: seq<Chunk>, b: seq<Chunk>, q: Quote, backslash: bool)
    requires a != [] && Lexed(a, q, backslash) && Text(b) != "" && Text(b)[0] == '\n'
    ensures Fits(a[0], q, backslash, Text(a[1..] + b))
  {
    TextConcat(a[1..], b);
    if a[1..] != [] {
      assert ValidChunk(a[1..][0], After(a[0], q), backslash);
      SameHead(a[0], q, backslash, Text(a[1..]), Text(a[1..] + b));
    } else {
      assert a[1..] + b == b;
      NewlineFits(a[0], q, backslash, Text(b));
    }
  }

  /** A newline ends whatever the scanner was looking at, so the next text starts afresh. */
  lemma {:induction false} LexedThenNewline(a: seq<Chunk>, b: seq<Chunk>, q: Quote, backslash: bool)
    requires Lexed(a, q, backslash) && Lexed(b, Closed, backslash)
    requires Text(b) != "" && Text(b)[0] == '\n'
    ensures Lexed(a + b, q, backslash)
  {
    if a == [] {
      assert a + b == b;
    } else {
      LexedThenNewline(a[1..], b, After(a[0], q), backslash);
      FitsBeforeNewline(a, b, q, backslash);
      LexedCons(a[0], a[1..] + b, q, backslash);
      ConcatCons(a, b);
    }
  }

  lemma SameHead(c: Chunk, q: Quote, backslash: bool, t: string, u: string)
    requires t != "" && u != "" && t[0] == u[0] && Fits(c, q, backslash, t)
    ensures Fits(c, q, backslash, u)
  {
  }

  lemma NewlineFits(c: Chunk, q: Quote, backslash: bool, t: string)
    requires ValidChunk(c, q, backslash) && After(c, q).Closed? && t != "" && t[0] == '\n'
    ensures Fits(c, q, backslash, t)
  {
  }

  lemma CodeThenLexed(c: char, cs: seq<Chunk>, backslash: bool)
    requires Lexed(cs, Closed, backslash) && !IsDelim(c) && c != '-' && c != '/'
    ensures Lexed([Chunk([c], true)] + cs, Closed, backslash)
    ensures Text([Chunk([c], true)] + cs) == [c] + Text(cs)
  {
    assert ([Chunk([c], true)] + cs)[1..] == cs;
  }

  /** The chunks of a statement, a newline, `;` and further text. */
  lemma StatementThenRest(a: seq<Chunk>, b: seq<Chunk>, backslash: bool)
    requires Lexed(a, Closed, backslash) && SEMICOLON !in a && Lexed(b, Closed, backslash)
    ensures var all := a + [Chunk("\n", true)] + [SEMICOLON] + b;
            && Lexed(all, Closed, backslash)
            && Text(all) == Text(a) + "\n;" + Text(b)
            && Pieces(all) == [a + [Chunk("\n", true)]] + Pieces(b)
            && Text(a + [Chunk("\n", true)]) == Text(a) + "\n"
  {
    var nl := [Chunk("\n", true)];
    var tail := nl + ([SEMICOLON] + b);
    CodeThenLexed(';', b, backslash);
    CodeThenLexed('\n', [SEMICOLON] + b, backslash);
    LexedThenNewline(a, tail, Closed, backslash);
    TextConcat(a, tail);
    TextConcat(a, nl);
    assert Text(nl) == "\n" by {
      assert nl[1..] == [];
    }
    assert a + tail == a + nl + [SEMICOLON] + b;
    PiecesConcat(a + nl, b);
    assert Text(a) + (['\n'] + ([';'] + Text(b))) == Text(a) + "\n;" + Text(b);
  }

  lemma StatementsCons(first: seq<Chunk>, ps: seq<seq<Chunk>>)
    requires Strip(Text(first)) != ""
    ensures Stripped(Texts([first] + ps)) == [Strip(Text(first))] + Stripped(Texts(ps))
  {
    assert ([first] + ps)[1..] == ps;
    assert Texts([first] + ps)[1..] == Texts(ps);
  }

  lemma OneStatement(s: string, backslash: bool)
    requires IsStatement(s, backslash)
    ensures Statements(Scan(s, Closed, backslash).chunks) == [s]
  {
    var a := Scan(s, Closed, backslash).chunks;
    ScanIsLexed(s, Closed, backslash);
    TightStrips(s);
    NoSemicolonOnePiece(a);
    StatementsCons(a, []);
    assert [a] + [] == [a];
  }

  lemma JoinStep(s: string, rest: string, backslash: bool)
    requires IsStatement(s, backslash) && Scan(rest, Closed, backslash).Chunks?
    ensures var all := Scan(s + "\n;" + rest, Closed, backslash);
            && all.Chunks?
            && Statements(all.chunks) == [s] + Statements(Scan(rest, Closed, backslash).chunks)
  {
    var a, b := Scan(s, Closed, backslash).chunks, Scan(rest, Closed, backslash).chunks;
    ScanIsLexed(s, Closed, backslash);
    ScanIsLexed(rest, Closed, backslash);
    TightStrips(s);
    StatementThenRest(a, b, backslash);
    LexedIsScan(a + [Chunk("\n", true)] + [SEMICOLON] + b, Closed, backslash);
    StatementsCons(a + [Chunk("\n", true)], Pieces(b));
  }

  lemma {:induction false} JoinedStatements(ss: seq<string>, backslash: bool)
    requires forall i :: 0 <= i < |ss| ==> IsStatement(ss[i], backslash)
    ensures Scan(JoinWith(ss, "\n;"), Closed, backslash).Chunks?
    ensures Statements(Scan(JoinWith(ss, "\n;"), Closed, backslash).chunks) == ss
  {
    if ss == [] {
      assert Strip("") == "" && Texts([[]])[1..] == [];
    } else if |ss| == 1 {
      OneStatement(ss[0], backslash);
    } else {
      JoinedStatements(ss[1..], backslash);
      JoinStep(ss[0], JoinWith(ss[1..], "\n;"), backslash);
    }
  }

  /** A statement splits to itself. */
  lemma StatementSplitsToItself(s: string, params: nat, backslash: bool)
    requires IsStatement(s, backslash)
    ensures Split(s, params, backslash) == Ok([s])
  {
    JoinedStatements([s], backslash);
  }

  /** Joining the statements with a newline and `;` and splitting again gives the same list,
      even when a statement ends in a line comment. */
  lemma SplitJoinSplit(sql: string, backslash: bool)
    requires Split(sql, 0, backslash).Ok?
    ensures Split(JoinWith(Split(sql, 0, backslash).value, "\n;"), 0, backslash) == Split(sql, 0, backslash)
  {
    SplitGivesStatements(sql, 0, backslash);
    JoinedStatements(Split(sql, 0, backslash).value, backslash);
  }

  // ------------------------------------------------------------------
  // Parameters

  /** Parameters are refused for two or more statements, with their number, and for nothing else. */
  lemma ParametersNeedOneStatement(ss: seq<string>, params: nat, backslash: bool)
    requires forall i :: 0 <= i < |ss| ==> IsStatement(ss[i], backslash)
    ensures Split(JoinWith(ss, "\n;"), params, backslash) ==
            if params > 0 && |ss| >= 2 then Err(ParameterizedMultiStatement(|ss|)) else Ok(ss)
  {
    JoinedStatements(ss, backslash);
  }

  /** For every text: with parameters an accepted split has at most one statement, parameters change
      nothing else, and what is refused for them is exactly what splits into several statements. */
  lemma ParametersOnlyRefuse(sql: string, params: nat, backslash: bool)
    ensures Split(sql, params, backslash).Ok? && params > 0 ==> |Split(sql, params, backslash).value| <= 1
    ensures Split(sql, params, backslash).Ok? ==> Split(sql, 0, backslash) == Split(sql, params, backslash)
    ensures forall n :: Split(sql, params, backslash) == Err(ParameterizedMultiStatement(n)) <==>
              params > 0 && n >= 2 && Split(sql, 0, backslash).Ok? && |Split(sql, 0, backslash).value| == n
    ensures forall e :: Split(sql, params, backslash) == Err(Unscannable(e)) <==>
              Scan(sql, Closed, backslash) == Refused(e)
  {
  }

  // ------------------------------------------------------------------
  // What stripping keeps

  /** Among the printable ASCII characters and the controls, exactly these are white space. */
  lemma KnownSpaces(c: char)
    requires c < 128 as char
    ensures IsSpace(c) <==>
              c in {' ', '\t', '\n', '\r', 11 as char, 12 as char, 28 as char, 29 as char, 30 as char, 31 as char}
  {
  }

  predicate AllSpace(s: string) {
    forall i :: 0 <= i < |s| ==> IsSpace(s[i])
  }

  lemma {:induction false} LStripDrops(a: string, s: string)
    requires AllSpace(a) && (s == "" || !IsSpace(s[0]))
    ensures LStrip(a + s) == s
  {
    if a == "" {
      assert a + s == s;
    } else {
      LStripDrops(a[1..], s);
      assert (a + s)[0] == a[0] && (a + s)[1..] == a[1..] + s;
    }
  }

  /** Stripping takes away the white space around a text, and nothing else. */
  lemma StripIsExact(a: string, t: string, b: string)
    requires AllSpace(a) && AllSpace(b) && (t == "" || Tight(t))
    ensures Strip(a + t + b) == t
  {
    if t == "" {
      LStripDrops(a + b, "");
      assert a + t + b == (a + b) + "";
    } else {
      LStripDrops(a, t + b);
      assert a + t + b == a + (t + b);
      assert forall i :: |t| <= i < |t + b| ==> (t + b)[i] == b[i - |t|];
      RStripUnique(t + b, t);
    }
  }

  /** Every piece is accounted for: it is stripped in its place, or left out if nothing remains. */
  lemma {:induction false} PieceAccounted(parts: seq<string>, i: nat)
    requires i < |parts|
    ensures var t := Strip(parts[i]);
            Stripped(parts) == Stripped(parts[..i]) + (if t == "" then [] else [t]) + Stripped(parts[i + 1..])
    decreases i
  {
    var head := if Strip(parts[0]) != "" then [Strip(parts[0])] else [];
    if i == 0 {
      assert parts[..0] == [] && [] + head == head;
    } else {
      PieceAccounted(parts[1..], i - 1);
      assert parts[1..][..i - 1] == parts[..i][1..] && parts[1..][i..] == parts[i + 1..];
      assert parts[1..][i - 1] == parts[i];
      var t := Strip(parts[i]);
      var mid := if t == "" then [] else [t];
      ConcatAssoc(head, Stripped(parts[..i][1..]), mid);
      ConcatAssoc(head, Stripped(parts[..i][1..]) + mid, Stripped(parts[i + 1..]));
    }
  }

  // ------------------------------------------------------------------
  // Joining with a plain `;`

  lemma PrependConcat(a: seq<Chunk>, b: seq<Chunk>, rest: Scanned)
    ensures Prepend(a, Prepend(b, rest)) == Prepend(a + b, rest)
    ensures Prepend([], rest) == rest
  {
    if rest.Chunks? {
      ConcatAssoc(a, b, rest.chunks);
    }
  }

  lemma SemicolonFits(c: Chunk, q: Quote, backslash: bool, t: string)
    requires ValidChunk(c, q, backslash) && After(c, q).Closed? && !IsLineComment(c.text)
    requires t != "" && t[0] == ';'
    ensures Fits(c, q, backslash, t)
  {
  }

  /** The first chunk of a text, with something after it that starts with `;`. */
  lemma FirstThenMore(a: seq<Chunk>, q: Quote, backslash: bool, t: string)
    requires a != [] && Lexed(a, q, backslash) && t != "" && t[0] == ';'
    requires |a| > 1 || !IsLineComment(a[0].text)
    ensures Scan(Text(a) + t, q, backslash)
         == Prepend([a[0]], Scan(Text(a[1..]) + t, After(a[0], q), backslash))
  {
    var u := Text(a[1..]) + t;
    if a[1..] != [] {
      assert ValidChunk(a[1..][0], After(a[0], q), backslash);
      SameHead(a[0], q, backslash, Text(a[1..]), u);
    } else {
      SemicolonFits(a[0], q, backslash, u);
    }
    ScanOne(a[0], q, backslash, u);
    ConcatAssoc(a[0].text, Text(a[1..]), t);
  }

  /** A text that does not end in a line comment scans the same with a `;` and more after it. */
  lemma {:induction false} ScanThenSemicolon(a: seq<Chunk>, q: Quote, backslash: bool, t: string)
    requires Lexed(a, q, backslash) && t != "" && t[0] == ';'
    requires a != [] ==> !IsLineComment(a[|a| - 1].text)
    ensures Scan(Text(a) + t, q, backslash) == Prepend(a, Scan(t, Closed, backslash))
  {
    if a == [] {
      PrependConcat([], [], Scan(t, Closed, backslash));
      assert Text(a) + t == t;
    } else {
      FirstThenMore(a, q, backslash, t);
      ScanThenSemicolon(a[1..], After(a[0], q), backslash, t);
      PrependConcat([a[0]], a[1..], Scan(t, Closed, backslash));
      assert [a[0]] + a[1..] == a;
    }
  }

  /** A line comment at the end swallows what follows, `;` included. */
  lemma {:induction false} CommentSwallows(a: seq<Chunk>, q: Quote, backslash: bool, t: string)
    requires a != [] && Lexed(a, q, backslash) && SEMICOLON !in a && IsLineComment(a[|a| - 1].text)
    requires t != "" && t[0] == ';' && Scan(Text(a) + t, q, backslash).Chunks?
    ensures Text(a) + ";" <= Text(Pieces(Scan(Text(a) + t, q, backslash).chunks)[0])
  {
    if |a| == 1 {
      assert a[1..] == [] && Text(a) == a[0].text + "" == a[0].text;
      CommentRunsOn(a[0], q, backslash, t);
    } else {
      FirstThenMore(a, q, backslash, t);
      CommentSwallows(a[1..], After(a[0], q), backslash, t);
      SwallowsMore(a[0], Scan(Text(a[1..]) + t, After(a[0], q), backslash).chunks, Text(a[1..]) + ";");
      ConcatAssoc(a[0].text, Text(a[1..]), ";");
    }
  }

  lemma SwallowsMore(c: Chunk, rest: seq<Chunk>, p: string)
    requires c != SEMICOLON && p <= Text(Pieces(rest)[0])
    ensures c.text + p <= Text(Pieces([c] + rest)[0])
  {
    FirstPiece(c, rest);
  }

  lemma FirstPiece(c: Chunk, rest: seq<Chunk>)
    requires c != SEMICOLON
    ensures Text(Pieces([c] + rest)[0]) == c.text + Text(Pieces(rest)[0])
  {
    assert ([c] + rest)[1..] == rest;
    TextCons(c, Pieces(rest)[0]);
  }

  lemma CommentRunsOn(c: Chunk, q: Quote, backslash: bool, t: string)
    requires ValidChunk(c, q, backslash) && After(c, q).Closed? && IsLineComment(c.text)
    requires t != "" && t[0] == ';' && Scan(c.text + t, q, backslash).Chunks?
    ensures c.text + ";" <= Text(Pieces(Scan(c.text + t, q, backslash).chunks)[0])
  {
    var s := c.text + t;
    var k := LineEnd(s, 0);
    assert forall j :: 0 <= j < |c.text| ==> s[j] == c.text[j];
    assert s[|c.text|] == ';' && k > |c.text|;
    var first, rest := Chunk(s[..k], false), Scan(s[k..], Closed, backslash).chunks;
    assert Next(s, q, backslash) == Step(k, false, Closed);
    assert Scan(s, q, backslash).chunks == [first] + rest;
    FirstPiece(first, rest);
    assert c.text + ";" == s[..|c.text| + 1] <= s[..k];
  }

  /** The last chunk of the text is a line comment. */
  predicate EndsInLineComment(s: string, backslash: bool) {
    var r := Scan(s, Closed, backslash);
    r.Chunks? && r.chunks != [] && IsLineComment(r.chunks[|r.chunks| - 1].text)
  }

  lemma StripKeepsBoth(s: string, p: string)
    requires Tight(s) && s + ";" <= p
    ensures |Strip(p)| > |s|
  {
    assert p[0] == s[0] && p[|s|] == ';' && !IsSpace(p[|s|]);
    assert LStrip(p) == p;
  }

  lemma Swallowed(s: string, t: string, backslash: bool)
    requires IsStatement(s, backslash) && EndsInLineComment(s, backslash) && t != "" && t[0] == ';'
    requires Scan(s + t, Closed, backslash).Chunks?
    ensures Statements(Scan(s + t, Closed, backslash).chunks) != []
    ensures |Statements(Scan(s + t, Closed, backslash).chunks)[0]| > |s|
  {
    var a, ps := Scan(s, Closed, backslash).chunks, Pieces(Scan(s + t, Closed, backslash).chunks);
    ScanIsLexed(s, Closed, backslash);
    CommentSwallows(a, Closed, backslash, t);
    StripKeepsBoth(s, Text(ps[0]));
    StatementsCons(ps[0], ps[1..]);
    assert [ps[0]] + ps[1..] == ps;
  }

  lemma PlainStep(s: string, rest: string, backslash: bool)
    requires IsStatement(s, backslash) && !EndsInLineComment(s, backslash)
    ensures var all, tail := Scan(s + ";" + rest, Closed, backslash), Scan(rest, Closed, backslash);
            && all.Chunks? == tail.Chunks?
            && (all.Chunks? ==> Statements(all.chunks) == [s] + Statements(tail.chunks))
  {
    var a, tail := Scan(s, Closed, backslash).chunks, Scan(rest, Closed, backslash);
    ScanIsLexed(s, Closed, backslash);
    ScanThenSemicolon(a, Closed, backslash, ";" + rest);
    ScanOne(SEMICOLON, Closed, backslash, rest);
    PrependConcat(a, [SEMICOLON], tail);
    ConcatAssoc(s, ";", rest);
    if tail.Chunks? {
      TightStrips(s);
      PiecesConcat(a, tail.chunks);
      StatementsCons(a, Pieces(tail.chunks));
    }
  }

  predicate NoneButLastEndsInComment(ss: seq<string>, backslash: bool) {
    forall i :: 0 <= i < |ss| - 1 ==> !EndsInLineComment(ss[i], backslash)
  }

  lemma FirstIsNoComment(ss: seq<string>, backslash: bool)
    requires ss != [] && !EndsInLineComment(ss[0], backslash)
    ensures NoneButLastEndsInComment(ss, backslash) <==> NoneButLastEndsInComment(ss[1..], backslash)
  {
    assert forall i :: 0 <= i < |ss| - 1 ==> ss[1..][i] == ss[i + 1];
    if NoneButLastEndsInComment(ss[1..], backslash) {
      forall i | 0 <= i < |ss| - 1 ensures !EndsInLineComment(ss[i], backslash) {
        assert i > 0 ==> ss[i] == ss[1..][i - 1];
      }
    }
  }

  /** Statements joined with a plain `;` split back to themselves if and only if none of them but the
      last ends in a line comment. */
  lemma {:induction false} PlainJointExact(ss: seq<string>, backslash: bool)
    requires forall i :: 0 <= i < |ss| ==> IsStatement(ss[i], backslash)
    ensures Split(JoinWith(ss, ";"), 0, backslash) == Ok(ss) <==>
            NoneButLastEndsInComment(ss, backslash)
  {
    if |ss| <= 1 {
      JoinedStatements(ss, backslash);
    } else {
      var rest := JoinWith(ss[1..], ";");
      PlainJointExact(ss[1..], backslash);
      if EndsInLineComment(ss[0], backslash) {
        ConcatAssoc(ss[0], ";", rest);
        if Scan(ss[0] + (";" + rest), Closed, backslash).Chunks? {
          Swallowed(ss[0], ";" + rest, backslash);
        }
      } else {
        FirstIsNoComment(ss, backslash);
        PlainStep(ss[0], rest, backslash);
        assert ss == [ss[0]] + ss[1..];
      }
    }
  }

  predicate IsPlain(c: char) {
    !IsDelim(c) && !IsSpace(c) && c != '-' && c != '/' && c != ';'
  }

  /** With a plain `;` as the joint this fails whenever a statement ends in a line comment:
      the comment swallows the joint and the next statement. */
  lemma PlainJointLosesStatements(code: char, comment: string, next: char)
    requires IsPlain(code) && IsPlain(next) && IsLineComment(comment) && !IsSpace(comment[|comment| - 1])
    ensures IsStatement([code] + comment, false) && IsStatement([next], false)
    ensures Split(JoinWith([[code] + comment, [next]], ";"), 0, false) == Ok([[code] + comment + ";" + [next]])
  {
    CommentedStatement(code, comment);
    OneCharStatement(next);
    var longer := comment + ";" + [next];
    assert StartsWith(longer, '-', '-') && IsLineComment(longer);
    CommentedStatement(code, longer);
    assert [code] + longer == [code] + comment + ";" + [next];
    StatementSplitsToItself([code] + longer, 0, false);
    JoinTwo([code] + comment, [next], ";");
  }

  lemma JoinTwo(a: string, b: string, sep: string)
    ensures JoinWith([a, b], sep) == a + sep + b
  {
    assert [a, b][1..] == [b];
  }

  lemma OneCharStatement(c: char)
    requires IsPlain(c)
    ensures IsStatement([c], false)
  {
    CodeThenLexed(c, [], false);
    LexedIsScan([Chunk([c], true)] + [], Closed, false);
  }

  lemma CommentedStatement(code: char, comment: string)
    requires IsPlain(code) && IsLineComment(comment) && !IsSpace(comment[|comment| - 1])
    ensures IsStatement([code] + comment, false)
  {
    var c := Chunk(comment, false);
    assert [c][1..] == [];
    assert Text([c]) == comment + Text([]) == comment;
    assert Lexed([c], Closed, false);
    CodeThenLexed(code, [c], false);
    LexedIsScan([Chunk([code], true)] + [c], Closed, false);
  }

  /** Both dialects split a text without a backslash the same way. */
  lemma DialectsSplitAlike(sql: string, params: nat)
    requires '\\' !in sql
    ensures Split(sql, params, true) == Split(sql, params, false)
  {
    DialectsAgree(sql, Closed);
  }
}
