/**
  The two placeholder rewrites: qmark to `$n` for Postgres (`_pg`) and qmark to `%s` for MySQL
  (`_mysql_prepare`), and what a server or driver makes of their output.
 */
module SqlRewrite {
  import opened Decimals
  import opened Collections
  import opened Wrappers
  import opened SqlScanner

  // ------------------------------------------------------------------
  // Postgres: `?` to `$n` outside literals, identifiers and comments

  const QMARK := Chunk("?", true)
  const DOLLAR := Chunk("$", true)

  /** The rewritten text of a chunk list, the next placeholder being number `idx + 1`. */
  function PgText(cs: seq<Chunk>, idx: nat): string {
    if cs == [] then ""
    else if cs[0] == QMARK then "$" + Decimal(idx + 1) + PgText(cs[1..], idx + 1)
    else cs[0].text + PgText(cs[1..], idx)
  }

  function Pg(sql: string): Result<string, ScanError> {
    match Scan(sql, Closed, false)
    case Refused(e) => Err(e)
    case Chunks(cs) => Ok(PgText(cs, 0))
  }

  lemma PgTextSplit(cs: seq<Chunk>, k: nat, idx: nat)
    requires k < |cs|
    ensures cs[k..] != [] && cs[k..][1..] == cs[k + 1..]
    ensures PgText(cs[k..], idx)
         == if cs[k] == QMARK then "$" + Decimal(idx + 1) + PgText(cs[k + 1..], idx + 1)
            else cs[k].text + PgText(cs[k + 1..], idx)
  {
  }

  method PgRewrite(sql: string) returns (r: Result<string, ScanError>)
    ensures r == Pg(sql)
  {
    var scanned := ScanSql(sql, false);
    if scanned.Refused? {
      return Err(scanned.error);
    }
    var cs := scanned.chunks;
    var out, idx := "", 0;
    assert cs[0..] == cs;
    for k := 0 to |cs|
      invariant PgText(cs, 0) == out + PgText(cs[k..], idx)
    {
      PgTextSplit(cs, k, idx);
      if cs[k] == QMARK {
        idx := idx + 1;
        out := out + ("$" + Decimal(idx));
      } else {
        out := out + cs[k].text;
      }
    }
    assert out + "" == out;
    return Ok(out);
  }

  /** One code chunk per character. */
  function CodeChunks(s: string): (cs: seq<Chunk>)
    ensures |cs| == |s| && forall i :: 0 <= i < |s| ==> cs[i] == Chunk([s[i]], true)
  {
    seq(|s|, i requires 0 <= i < |s| => Chunk([s[i]], true))
  }

  lemma CodeChunksCons(s: string, cs: seq<Chunk>)
    requires s != ""
    ensures CodeChunks(s) + cs == [Chunk([s[0]], true)] + (CodeChunks(s[1..]) + cs)
    ensures (CodeChunks(s) + cs)[1..] == CodeChunks(s[1..]) + cs
  {
  }

  /** The chunk list the rewrite is expected to have: only code `?` chunks are replaced. */
  function Numbered(cs: seq<Chunk>, idx: nat): seq<Chunk> {
    if cs == [] then []
    else if cs[0] == QMARK then [DOLLAR] + CodeChunks(Decimal(idx + 1)) + Numbered(cs[1..], idx + 1)
    else [cs[0]] + Numbered(cs[1..], idx)
  }

  lemma TextCons(c: Chunk, cs: seq<Chunk>)
    ensures Text([c] + cs) == c.text + Text(cs)
  {
    assert ([c] + cs)[0] == c && ([c] + cs)[1..] == cs;
  }

  lemma {:induction false} TextConcat(a: seq<Chunk>, b: seq<Chunk>)
    ensures Text(a + b) == Text(a) + Text(b)
  {
    if a == [] {
      assert a + b == b;
    } else {
      TextConcat(a[1..], b);
      ConcatCons(a, b);
      TextCons(a[0], a[1..] + b);
      ConcatAssoc(a[0].text, Text(a[1..]), Text(b));
    }
  }

  lemma {:induction false} CodeChunksText(s: string)
    ensures Text(CodeChunks(s)) == s
  {
    if s != "" {
      CodeChunksText(s[1..]);
      assert CodeChunks(s)[1..] == CodeChunks(s[1..]);
    }
  }

  lemma {:induction false} NumberedText(cs: seq<Chunk>, idx: nat)
    ensures Text(Numbered(cs, idx)) == PgText(cs, idx)
  {
    if cs != [] {
      if cs[0] == QMARK {
        NumberedText(cs[1..], idx + 1);
        var d := CodeChunks(Decimal(idx + 1));
        CodeChunksText(Decimal(idx + 1));
        TextConcat([DOLLAR] + d, Numbered(cs[1..], idx + 1));
        TextConcat([DOLLAR], d);
      } else {
        NumberedText(cs[1..], idx);
        assert Numbered(cs, idx)[1..] == Numbered(cs[1..], idx);
      }
    }
  }

  lemma {:induction false} DigitsThenLexed(d: string, cs: seq<Chunk>)
    requires AllDigits(d) && Lexed(cs, Closed, false)
    ensures Lexed(CodeChunks(d) + cs, Closed, false)
  {
    if d == "" {
      assert CodeChunks(d) + cs == cs;
    } else {
      DigitsThenLexed(d[1..], cs);
      CodeChunksCons(d, cs);
    }
  }

  /** The text after a chunk only changes at its head if it starts with a code `?`. */
  lemma PgTextHead(cs: seq<Chunk>, q: Quote, idx: nat)
    requires Lexed(cs, q, false)
    ensures PgText(cs, idx) == "" <==> Text(cs) == ""
    ensures Text(cs) != "" ==> PgText(cs, idx)[0] == if cs[0] == QMARK then '$' else Text(cs)[0]
  {
  }

  lemma NumberedOther(cs: seq<Chunk>, idx: nat)
    requires cs != [] && cs[0] != QMARK
    ensures Numbered(cs, idx) == [cs[0]] + Numbered(cs[1..], idx)
    ensures Numbered(cs, idx)[1..] == Numbered(cs[1..], idx)
  {
  }

  lemma DollarThenLexed(cs: seq<Chunk>)
    requires Lexed(cs, Closed, false)
    ensures Lexed([DOLLAR] + cs, Closed, false)
  {
    assert ([DOLLAR] + cs)[1..] == cs;
  }

  lemma {:induction false} NumberedLexed(cs: seq<Chunk>, q: Quote, idx: nat)
    requires Lexed(cs, q, false)
    ensures Lexed(Numbered(cs, idx), q, false)
  {
    if cs != [] {
      if cs[0] == QMARK {
        NumberedLexed(cs[1..], Closed, idx + 1);
        var rest := CodeChunks(Decimal(idx + 1)) + Numbered(cs[1..], idx + 1);
        DigitsThenLexed(Decimal(idx + 1), Numbered(cs[1..], idx + 1));
        DollarThenLexed(rest);
        assert Numbered(cs, idx) == [DOLLAR] + rest;
      } else {
        var q' := After(cs[0], q);
        NumberedLexed(cs[1..], q', idx);
        NumberedText(cs[1..], idx);
        PgTextHead(cs[1..], q', idx);
        NumberedOther(cs, idx);
      }
    }
  }

  /** What cannot be scanned is refused with the scanner's error, and nothing else is. */
  lemma PgRefusesTheUnscannable(sql: string)
    ensures forall e :: Pg(sql) == Err(e) <==> Scan(sql, Closed, false) == Refused(e)
  {
  }

  /** Scanning the output gives the input's chunks with only the code `?` replaced. */
  lemma PgPreservesLexing(sql: string)
    requires Pg(sql).Ok?
    ensures Scan(Pg(sql).value, Closed, false)
         == Chunks(Numbered(Scan(sql, Closed, false).chunks, 0))
  {
    var cs := Scan(sql, Closed, false).chunks;
    ScanIsLexed(sql, Closed, false);
    NumberedLexed(cs, Closed, 0);
    NumberedText(cs, 0);
    LexedIsScan(Numbered(cs, 0), Closed, false);
  }

  /** The literals, identifiers and comments of a chunk list, in order. */
  function Protected(cs: seq<Chunk>): seq<Chunk> {
    if cs == [] then []
    else if cs[0].isCode then Protected(cs[1..]) else [cs[0]] + Protected(cs[1..])
  }

  lemma ProtectedCons(c: Chunk, cs: seq<Chunk>)
    ensures Protected([c] + cs) == if c.isCode then Protected(cs) else [c] + Protected(cs)
  {
    assert ([c] + cs)[0] == c && ([c] + cs)[1..] == cs;
  }

  lemma {:induction false} ProtectedConcat(a: seq<Chunk>, b: seq<Chunk>)
    ensures Protected(a + b) == Protected(a) + Protected(b)
  {
    if a == [] {
      assert a + b == b;
    } else {
      ProtectedConcat(a[1..], b);
      ConcatCons(a, b);
      ProtectedCons(a[0], a[1..] + b);
      ConcatAssoc([a[0]], Protected(a[1..]), Protected(b));
    }
  }

  lemma {:induction false} ProtectedNone(cs: seq<Chunk>)
    requires forall i :: 0 <= i < |cs| ==> cs[i].isCode
    ensures Protected(cs) == []
  {
    if cs != [] {
      ProtectedNone(cs[1..]);
    }
  }

  lemma {:induction false} NumberedProtects(cs: seq<Chunk>, idx: nat)
    ensures Protected(Numbered(cs, idx)) == Protected(cs)
    ensures QMARK !in Numbered(cs, idx)
  {
    if cs != [] {
      if cs[0] == QMARK {
        NumberedProtects(cs[1..], idx + 1);
        var head := [DOLLAR] + CodeChunks(Decimal(idx + 1));
        ProtectedNone(head);
        ProtectedConcat(head, Numbered(cs[1..], idx + 1));
      } else {
        NumberedProtects(cs[1..], idx);
        ProtectedConcat([cs[0]], Numbered(cs[1..], idx));
      }
    }
  }

  lemma {:induction false} NothingToNumber(cs: seq<Chunk>, idx: nat)
    requires QMARK !in cs
    ensures PgText(cs, idx) == Text(cs)
  {
    if cs != [] {
      NothingToNumber(cs[1..], idx);
    }
  }

  /** No literal, identifier or comment changes by a byte, no code `?` survives, and rewriting
      the output again changes nothing. */
  lemma PgIsIdempotent(sql: string)
    requires Pg(sql).Ok?
    ensures Pg(Pg(sql).value) == Pg(sql)
    ensures var out := Scan(Pg(sql).value, Closed, false);
            && out.Chunks? && QMARK !in out.chunks
            && Protected(out.chunks) == Protected(Scan(sql, Closed, false).chunks)
  {
    var cs := Scan(sql, Closed, false).chunks;
    PgPreservesLexing(sql);
    NumberedProtects(cs, 0);
    NothingToNumber(Numbered(cs, 0), 0);
    ScanIsLexed(Pg(sql).value, Closed, false);
  }

  // ------------------------------------------------------------------
  // Which placeholders the rewritten statement contains

  predicate IsCodeDigit(c: Chunk) {
    c.isCode && |c.text| == 1 && IsDigit(c.text[0])
  }

  /** The longest run of code digits at the front of a chunk list. */
  function DigitRun(cs: seq<Chunk>): (s: string)
    ensures AllDigits(s) && |s| <= |cs|
    ensures forall i :: 0 <= i < |s| ==> cs[i] == Chunk([s[i]], true)
    ensures |s| < |cs| ==> !IsCodeDigit(cs[|s|])
  {
    if cs == [] || !IsCodeDigit(cs[0]) then "" else
    assert cs[0] == Chunk([cs[0].text[0]], true);
    cs[0].text + DigitRun(cs[1..])
  }

  /** The numerals of all `$<digits>` in code, in order. */
  function Placeholders(cs: seq<Chunk>): seq<string> {
    if cs == [] then []
    else if cs[0] == DOLLAR && DigitRun(cs[1..]) != "" then [DigitRun(cs[1..])] + Placeholders(cs[1..])
    else Placeholders(cs[1..])
  }

  function CountCode(cs: seq<Chunk>): nat {
    if cs == [] then 0 else (if cs[0] == QMARK then 1 else 0) + CountCode(cs[1..])
  }

  /** The numerals from `idx + 1` to `idx + n`. */
  function Numerals(idx: nat, n: nat): seq<string>
    decreases n
  {
    if n == 0 then [] else [Decimal(idx + 1)] + Numerals(idx + 1, n - 1)
  }

  /** No code `?` and no code `$` is directly followed by a code digit. */
  predicate Unambiguous(cs: seq<Chunk>) {
    forall i :: 0 <= i < |cs| - 1 && (cs[i] == QMARK || cs[i] == DOLLAR) ==> !IsCodeDigit(cs[i + 1])
  }

  lemma CodeDigitFirst(d: char, cs: seq<Chunk>)
    requires IsDigit(d)
    ensures Placeholders([Chunk([d], true)] + cs) == Placeholders(cs)
    ensures DigitRun([Chunk([d], true)] + cs) == [d] + DigitRun(cs)
  {
    assert ([Chunk([d], true)] + cs)[1..] == cs;
  }

  lemma {:induction false} DigitsAreNoPlaceholders(s: string, cs: seq<Chunk>)
    requires AllDigits(s)
    ensures Placeholders(CodeChunks(s) + cs) == Placeholders(cs)
  {
    if s == "" {
      assert CodeChunks(s) + cs == cs;
    } else {
      CodeChunksCons(s, cs);
      CodeDigitFirst(s[0], CodeChunks(s[1..]) + cs);
      DigitsAreNoPlaceholders(s[1..], cs);
    }
  }

  lemma {:induction false} DigitsExtendTheRun(s: string, cs: seq<Chunk>)
    requires AllDigits(s)
    ensures DigitRun(CodeChunks(s) + cs) == s + DigitRun(cs)
  {
    var all := CodeChunks(s) + cs;
    var run := DigitRun(all);
    assert forall i :: 0 <= i < |s| ==> IsCodeDigit(all[i]);
    assert |run| >= |s|;
    assert forall i :: 0 <= i < |run| ==> all[i] == Chunk([run[i]], true);
    DigitRunUnique(cs, run[|s|..]);
    assert run == s + run[|s|..];
  }

  /** A code-digit prefix that cannot be extended is the digit run. */
  lemma DigitRunUnique(cs: seq<Chunk>, s: string)
    requires AllDigits(s) && |s| <= |cs|
    requires forall i :: 0 <= i < |s| ==> cs[i] == Chunk([s[i]], true)
    requires |s| < |cs| ==> !IsCodeDigit(cs[|s|])
    ensures DigitRun(cs) == s
  {
    var run := DigitRun(cs);
    assert forall i :: 0 <= i < |run| ==> IsCodeDigit(cs[i]);
    assert |run| == |s|;
    assert forall i :: 0 <= i < |s| ==> [run[i]] == [s[i]] && run[i] == [run[i]][0];
  }

  /** Whether a digit run follows does not depend on the numbering. */
  lemma NumberedHead(cs: seq<Chunk>, idx: nat)
    ensures DigitRun(Numbered(cs, idx)) != "" <==> cs != [] && IsCodeDigit(cs[0])
  {
  }

  lemma NumberedQmark(cs: seq<Chunk>, idx: nat)
    requires cs != [] && cs[0] == QMARK
    ensures Placeholders(Numbered(cs, idx))
         == [Decimal(idx + 1) + DigitRun(Numbered(cs[1..], idx + 1))] + Placeholders(Numbered(cs[1..], idx + 1))
  {
    var rest := CodeChunks(Decimal(idx + 1)) + Numbered(cs[1..], idx + 1);
    DigitsAreNoPlaceholders(Decimal(idx + 1), Numbered(cs[1..], idx + 1));
    DigitsExtendTheRun(Decimal(idx + 1), Numbered(cs[1..], idx + 1));
    assert Numbered(cs, idx) == [DOLLAR] + rest;
    DollarFirst(rest);
  }

  lemma DollarFirst(rest: seq<Chunk>)
    requires DigitRun(rest) != ""
    ensures Placeholders([DOLLAR] + rest) == [DigitRun(rest)] + Placeholders(rest)
  {
    assert ([DOLLAR] + rest)[1..] == rest;
  }

  lemma {:induction false} AtLeastOnePerQmark(cs: seq<Chunk>, idx: nat)
    ensures |Placeholders(Numbered(cs, idx))| >= CountCode(cs)
  {
    if cs != [] {
      if cs[0] == QMARK {
        NumberedQmark(cs, idx);
        AtLeastOnePerQmark(cs[1..], idx + 1);
      } else {
        NumberedOther(cs, idx);
        AtLeastOnePerQmark(cs[1..], idx);
      }
    }
  }

  lemma {:induction false} NumeralsLength(idx: nat, n: nat)
    ensures |Numerals(idx, n)| == n
    decreases n
  {
    if n > 0 {
      NumeralsLength(idx + 1, n - 1);
    }
  }

  lemma UnambiguousTail(cs: seq<Chunk>)
    requires cs != []
    ensures Unambiguous(cs) <==>
            && Unambiguous(cs[1..])
            && ((cs[0] == QMARK || cs[0] == DOLLAR) && |cs| > 1 ==> !IsCodeDigit(cs[1]))
  {
    if Unambiguous(cs[1..]) && ((cs[0] == QMARK || cs[0] == DOLLAR) && |cs| > 1 ==> !IsCodeDigit(cs[1])) {
      forall i | 0 <= i < |cs| - 1 && (cs[i] == QMARK || cs[i] == DOLLAR)
        ensures !IsCodeDigit(cs[i + 1])
      {
        if i > 0 {
          assert cs[1..][i - 1] == cs[i] && cs[1..][i] == cs[i + 1];
        }
      }
    }
    if Unambiguous(cs) {
      forall i | 0 <= i < |cs[1..]| - 1 && (cs[1..][i] == QMARK || cs[1..][i] == DOLLAR)
        ensures !IsCodeDigit(cs[1..][i + 1])
      {
        assert cs[1..][i] == cs[i + 1] && cs[1..][i + 1] == cs[i + 2];
      }
    }
  }

  lemma FirstNumeral(d: string, run: string, xs: seq<string>, ys: seq<string>)
    ensures [d + run] + xs == [d] + ys <==> run == "" && xs == ys
  {
    assert |d + run| == |d| + |run|;
    if [d + run] + xs == [d] + ys {
      assert ([d + run] + xs)[0] == d + run && ([d + run] + xs)[1..] == xs && ([d] + ys)[1..] == ys;
    } else if run == "" {
      assert d + run == d;
    }
  }

  lemma QmarkStep(cs: seq<Chunk>, idx: nat)
    requires cs != [] && cs[0] == QMARK
    ensures Placeholders(Numbered(cs, idx)) == Numerals(idx, CountCode(cs)) <==>
            && (cs[1..] == [] || !IsCodeDigit(cs[1..][0]))
            && Placeholders(Numbered(cs[1..], idx + 1)) == Numerals(idx + 1, CountCode(cs[1..]))
  {
    var rest, d := Numbered(cs[1..], idx + 1), Decimal(idx + 1);
    NumberedQmark(cs, idx);
    NumberedHead(cs[1..], idx + 1);
    assert CountCode(cs) == 1 + CountCode(cs[1..]);
    FirstNumeral(d, DigitRun(rest), Placeholders(rest), Numerals(idx + 1, CountCode(cs[1..])));
  }

  lemma DollarStep(cs: seq<Chunk>, idx: nat)
    requires cs != [] && cs[0] == DOLLAR
    ensures Placeholders(Numbered(cs, idx)) == Numerals(idx, CountCode(cs)) <==>
            && (cs[1..] == [] || !IsCodeDigit(cs[1..][0]))
            && Placeholders(Numbered(cs[1..], idx)) == Numerals(idx, CountCode(cs[1..]))
  {
    NumberedOther(cs, idx);
    NumberedHead(cs[1..], idx);
    AtLeastOnePerQmark(cs[1..], idx);
    NumeralsLength(idx, CountCode(cs));
  }

  lemma {:induction false} NumberedPlaceholders(cs: seq<Chunk>, idx: nat)
    ensures Placeholders(Numbered(cs, idx)) == Numerals(idx, CountCode(cs)) <==> Unambiguous(cs)
  {
    if cs == [] {
      assert Placeholders(Numbered(cs, idx)) == [];
    } else {
      UnambiguousTail(cs);
      if cs[0] == QMARK {
        NumberedPlaceholders(cs[1..], idx + 1);
        QmarkStep(cs, idx);
      } else {
        NumberedPlaceholders(cs[1..], idx);
        if cs[0] == DOLLAR {
          DollarStep(cs, idx);
        } else {
          NumberedOther(cs, idx);
        }
      }
    }
  }

  /** The placeholders of the output are `$1` to `$n` in order, one per code `?`, exactly when
      no code `?` or `$` of the input touches a digit. */
  lemma PgPlaceholdersInOrder(sql: string)
    requires Pg(sql).Ok?
    ensures var cs := Scan(sql, Closed, false).chunks;
            var out := Scan(Pg(sql).value, Closed, false);
            out.Chunks? &&
            (Placeholders(out.chunks) == Numerals(0, CountCode(cs)) <==> Unambiguous(cs))
  {
    PgPreservesLexing(sql);
    NumberedPlaceholders(Scan(sql, Closed, false).chunks, 0);
  }

  // ------------------------------------------------------------------
  // MySQL: `?` to `%s`, everywhere, with literal `%` doubled

  /** `str.replace` for a one-character pattern. */
  function ReplaceChar(s: string, c: char, to: string): string {
    if s == "" then "" else (if s[0] == c then to else [s[0]]) + ReplaceChar(s[1..], c, to)
  }

  function MySqlPrepare(sql: string, args: seq<string>): (string, Option<seq<string>>) {
    if args == [] then (sql, None)
    else (ReplaceChar(ReplaceChar(sql, '%', "%%"), '?', "%s"), Some(args))
  }

  /** Python's `%` formatting, for the `%s` and `%%` directives the rewrite produces. */
  function PercentFormat(f: string, args: seq<string>): Option<string>
    decreases |f|
  {
    if f == "" then if args == [] then Some("") else None
    else if f[0] != '%' then
      match PercentFormat(f[1..], args)
      case Some(t) => Some([f[0]] + t)
      case None => None
    else if |f| == 1 then None
    else if f[1] == '%' then
      match PercentFormat(f[2..], args)
      case Some(t) => Some("%" + t)
      case None => None
    else if f[1] == 's' && args != [] then
      match PercentFormat(f[2..], args[1..])
      case Some(t) => Some(args[0] + t)
      case None => None
    else None
  }

  function CountQmarks(s: string): nat {
    if s == "" then 0 else (if s[0] == '?' then 1 else 0) + CountQmarks(s[1..])
  }

  /** The i-th `?` of `s` replaced by the i-th argument. */
  function Substitute(s: string, args: seq<string>): string
    requires CountQmarks(s) == |args|
  {
    if s == "" then ""
    else if s[0] == '?' then args[0] + Substitute(s[1..], args[1..])
    else [s[0]] + Substitute(s[1..], args)
  }

  lemma ReplaceCons(x: char, s: string, c: char, to: string)
    ensures ReplaceChar([x] + s, c, to) == (if x == c then to else [x]) + ReplaceChar(s, c, to)
  {
    assert ([x] + s)[0] == x && ([x] + s)[1..] == s;
  }

  lemma {:induction false} ReplaceConcat(a: string, b: string, c: char, to: string)
    ensures ReplaceChar(a + b, c, to) == ReplaceChar(a, c, to) + ReplaceChar(b, c, to)
  {
    if a == "" {
      assert a + b == b;
    } else {
      ReplaceConcat(a[1..], b, c, to);
      ConcatCons(a, b);
      ReplaceCons(a[0], a[1..] + b, c, to);
      ConcatAssoc(if a[0] == c then to else [a[0]], ReplaceChar(a[1..], c, to), ReplaceChar(b, c, to));
    }
  }

  lemma {:induction false} FormatPrepared(sql: string, args: seq<string>)
    ensures PercentFormat(ReplaceChar(ReplaceChar(sql, '%', "%%"), '?', "%s"), args)
         == if CountQmarks(sql) == |args| then Some(Substitute(sql, args)) else None
  {
    if sql != "" {
      var head := if sql[0] == '%' then "%%" else [sql[0]];
      var tail := ReplaceChar(sql[1..], '%', "%%");
      ReplaceConcat(head, tail, '?', "%s");
      assert ReplaceChar(sql, '%', "%%") == head + tail;
      if sql[0] == '%' {
        assert head[1..] == "%" && ReplaceChar("%", '?', "%s") == "%";
        assert ReplaceChar(head, '?', "%s") == "%%";
        var f := "%%" + ReplaceChar(tail, '?', "%s");
        assert f[2..] == ReplaceChar(tail, '?', "%s");
        FormatPrepared(sql[1..], args);
      } else {
        assert head[1..] == "";
        var f := ReplaceChar(head + tail, '?', "%s");
        if sql[0] == '?' {
          assert f == "%s" + ReplaceChar(tail, '?', "%s");
          assert f[2..] == ReplaceChar(tail, '?', "%s");
          if args != [] {
            FormatPrepared(sql[1..], args[1..]);
          }
        } else {
          assert f == [sql[0]] + ReplaceChar(tail, '?', "%s");
          assert f[1..] == ReplaceChar(tail, '?', "%s");
          FormatPrepared(sql[1..], args);
        }
      }
    }
  }

  /** What the MySQL driver sends; None is a formatting error. The callers pass `my_args or ()`, so
      without parameters the driver is given an empty tuple: `formatsEmpty` says whether it then
      formats the text with nothing, or leaves it alone. */
  function MySqlSends(sql: string, args: seq<string>, formatsEmpty: bool): Option<string> {
    var (f, bound) := MySqlPrepare(sql, args);
    var given := if bound.Some? then bound.value else [];
    if given == [] && !formatsEmpty then Some(f) else PercentFormat(f, given)
  }

  lemma {:induction false} FormatNothing(f: string)
    ensures PercentFormat(f, []).Some? ==> |PercentFormat(f, []).value| <= |f|
    ensures PercentFormat(f, []) == Some(f) <==> '%' !in f
    decreases |f|
  {
    if f != "" {
      if f[0] != '%' {
        FormatNothing(f[1..]);
        assert f == [f[0]] + f[1..];
      } else if |f| > 1 {
        FormatNothing(f[2..]);
        assert f[0] in f;
      }
    }
  }

  /** With arguments, formatting succeeds for every text exactly when there is one argument per `?`,
      and then only the `?` have changed. Without arguments the text is sent untouched if and only if
      the driver does not format it, or it holds no `%`, which nothing doubles then. */
  lemma MySqlBindsInOrder(sql: string, args: seq<string>, formatsEmpty: bool)
    ensures args != [] ==>
              MySqlSends(sql, args, formatsEmpty)
              == if CountQmarks(sql) == |args| then Some(Substitute(sql, args)) else None
    ensures args == [] ==>
              (MySqlSends(sql, args, formatsEmpty) == Some(sql) <==> !formatsEmpty || '%' !in sql)
  {
    FormatPrepared(sql, args);
    FormatNothing(sql);
  }

  // ------------------------------------------------------------------
  // The two dialects bind the same arguments at the same positions

  /** Argument `n`, then the rest; None if there is no such argument. */
  function ThenRest(args: seq<string>, n: nat, rest: Option<string>): Option<string> {
    if !(1 <= n <= |args|) || rest.None? then None else Some(args[n - 1] + rest.value)
  }

  /** What a server makes of a rewritten statement: each code `$n` stands for argument n. */
  function BindDollars(cs: seq<Chunk>, args: seq<string>): Option<string>
    decreases |cs|
  {
    if cs == [] then Some("")
    else
      var d := if cs[0] == DOLLAR then DigitRun(cs[1..]) else "";
      if d == "" then
        match BindDollars(cs[1..], args)
        case Some(t) => Some(cs[0].text + t)
        case None => None
      else ThenRest(args, Numeral(d), BindDollars(cs[1 + |d|..], args))
  }

  /** Each code `?` replaced by the next argument. */
  function SubstituteCode(cs: seq<Chunk>, args: seq<string>): string
    requires CountCode(cs) == |args|
  {
    if cs == [] then ""
    else if cs[0] == QMARK then args[0] + SubstituteCode(cs[1..], args[1..])
    else cs[0].text + SubstituteCode(cs[1..], args)
  }

  lemma BindQmark(cs: seq<Chunk>, args: seq<string>, idx: nat)
    requires cs != [] && cs[0] == QMARK && idx < |args|
    requires DigitRun(Numbered(cs[1..], idx + 1)) == ""
    ensures BindDollars(Numbered(cs, idx), args)
         == match BindDollars(Numbered(cs[1..], idx + 1), args)
            case Some(t) => Some(args[idx] + t)
            case None => None
  {
    var rest, d := Numbered(cs[1..], idx + 1), Decimal(idx + 1);
    DigitsExtendTheRun(d, rest);
    NumeralOfDecimal(idx + 1);
    var all := [DOLLAR] + (CodeChunks(d) + rest);
    assert Numbered(cs, idx) == all;
    assert all[1..] == CodeChunks(d) + rest && all[1 + |d|..] == rest;
    assert d + "" == d;
  }

  lemma {:induction false} BindNumbered(cs: seq<Chunk>, args: seq<string>, idx: nat)
    requires Unambiguous(cs) && idx + CountCode(cs) == |args|
    ensures BindDollars(Numbered(cs, idx), args) == Some(SubstituteCode(cs, args[idx..]))
  {
    if cs != [] {
      UnambiguousTail(cs);
      if cs[0] == QMARK {
        BindNumbered(cs[1..], args, idx + 1);
        NumberedHead(cs[1..], idx + 1);
        BindQmark(cs, args, idx);
        assert args[idx..][1..] == args[idx + 1..];
      } else {
        BindNumbered(cs[1..], args, idx);
        NumberedOther(cs, idx);
        NumberedHead(cs[1..], idx);
      }
    }
  }

  /** No `?` outside code: the documented assumption under which the dialects can agree. */
  predicate QmarksAreCode(cs: seq<Chunk>) {
    forall i :: 0 <= i < |cs| && !cs[i].isCode ==> '?' !in cs[i].text
  }

  lemma {:induction false} CountConcat(a: string, b: string)
    ensures CountQmarks(a + b) == CountQmarks(a) + CountQmarks(b)
  {
    if a == "" {
      assert a + b == b;
    } else {
      CountConcat(a[1..], b);
      assert (a + b)[1..] == a[1..] + b;
    }
  }

  lemma PlainFirst(c: char, s: string, args: seq<string>)
    requires c != '?'
    ensures CountQmarks([c] + s) == CountQmarks(s)
    ensures CountQmarks(s) == |args| ==> Substitute([c] + s, args) == [c] + Substitute(s, args)
  {
    assert ([c] + s)[1..] == s;
  }

  lemma {:induction false} SubstitutePlain(a: string, b: string, args: seq<string>)
    requires '?' !in a
    ensures CountQmarks(a + b) == CountQmarks(b)
    ensures CountQmarks(b) == |args| ==> Substitute(a + b, args) == a + Substitute(b, args)
  {
    if a == "" {
      assert a + b == b;
    } else {
      SubstitutePlain(a[1..], b, args);
      PlainFirst(a[0], a[1..] + b, args);
      assert a + b == [a[0]] + (a[1..] + b);
      if CountQmarks(b) == |args| {
        assert a + Substitute(b, args) == [a[0]] + (a[1..] + Substitute(b, args));
      }
    }
  }

  lemma {:induction false} CountPositive(s: string)
    ensures CountQmarks(s) > 0 <==> '?' in s
  {
    if s != "" {
      CountPositive(s[1..]);
    }
  }

  /** A statement takes as many `%s` as `$n` arguments exactly when no `?` hides outside code. */
  lemma {:induction false} CountsAgree(cs: seq<Chunk>, q: Quote)
    requires Lexed(cs, q, false)
    ensures CountQmarks(Text(cs)) >= CountCode(cs)
    ensures CountQmarks(Text(cs)) == CountCode(cs) <==> QmarksAreCode(cs)
  {
    if cs != [] {
      var rest := cs[1..];
      CountsAgree(rest, After(cs[0], q));
      CountConcat(cs[0].text, Text(rest));
      CountPositive(cs[0].text);
      assert QmarksAreCode(cs) <==> QmarksAreCode(rest) && (!cs[0].isCode ==> '?' !in cs[0].text) by {
        if QmarksAreCode(cs) {
          forall i | 0 <= i < |rest| && !rest[i].isCode ensures '?' !in rest[i].text {
            assert rest[i] == cs[i + 1];
          }
        }
        if QmarksAreCode(rest) && (!cs[0].isCode ==> '?' !in cs[0].text) {
          forall i | 0 <= i < |cs| && !cs[i].isCode ensures '?' !in cs[i].text {
            assert i > 0 ==> cs[i] == rest[i - 1];
          }
        }
      }
      if cs[0].isCode {
        assert cs[0].text == [cs[0].text[0]];
        assert cs[0].text[1..] == "";
        assert cs[0] == QMARK <==> cs[0].text[0] == '?';
      }
    }
  }

  lemma {:induction false} SubstitutionsAgree(cs: seq<Chunk>, q: Quote, args: seq<string>)
    requires Lexed(cs, q, false) && QmarksAreCode(cs) && CountCode(cs) == |args|
    ensures CountQmarks(Text(cs)) == |args|
    ensures Substitute(Text(cs), args) == SubstituteCode(cs, args)
  {
    CountsAgree(cs, q);
    if cs != [] {
      var rest := cs[1..];
      assert QmarksAreCode(rest) by {
        forall i | 0 <= i < |rest| && !rest[i].isCode ensures '?' !in rest[i].text {
          assert rest[i] == cs[i + 1];
        }
      }
      if cs[0] == QMARK {
        SubstitutionsAgree(rest, Closed, args[1..]);
        assert Text(cs)[1..] == Text(rest);
      } else {
        assert '?' !in cs[0].text by {
          if cs[0].isCode {
            assert cs[0].text == [cs[0].text[0]];
          }
        }
        SubstitutePlain(cs[0].text, Text(rest), args);
        SubstitutionsAgree(rest, After(cs[0], q), args);
      }
    }
  }

  /** Both dialects end up with the same bound text. */
  predicate BindAlike(sql: string, args: seq<string>, formatsEmpty: bool)
    requires Pg(sql).Ok?
  {
    var out := Scan(Pg(sql).value, Closed, false);
    && out.Chunks? && MySqlSends(sql, args, formatsEmpty).Some?
    && BindDollars(out.chunks, args) == MySqlSends(sql, args, formatsEmpty)
  }

  /** The condition on the statement under which the dialects agree. */
  predicate Portable(sql: string, cs: seq<Chunk>, formatsEmpty: bool) {
    Unambiguous(cs) && if CountCode(cs) > 0 then QmarksAreCode(cs) else !formatsEmpty || '%' !in sql
  }

  ghost predicate AlwaysBindAlike(sql: string, n: nat, formatsEmpty: bool)
    requires Pg(sql).Ok?
  {
    forall args: seq<string> :: |args| == n ==> BindAlike(sql, args, formatsEmpty)
  }

  /** The Postgres rewrite and the MySQL rewrite bind every list of arguments alike if and only if no
      code `?` or `$` touches a digit and every `?` is code; a statement without a code `?` need not
      have every `?` in code, but must hold no `%` if the driver formats it. */
  lemma DialectsBindAlike(sql: string, formatsEmpty: bool)
    requires Pg(sql).Ok?
    ensures var cs := Scan(sql, Closed, false).chunks;
            AlwaysBindAlike(sql, CountCode(cs), formatsEmpty) <==> Portable(sql, cs, formatsEmpty)
  {
    var n := CountCode(Scan(sql, Closed, false).chunks);
    if Portable(sql, Scan(sql, Closed, false).chunks, formatsEmpty) {
      forall args: seq<string> | |args| == n ensures BindAlike(sql, args, formatsEmpty) {
        PortableBindsAlike(sql, args, formatsEmpty);
      }
    }
    if AlwaysBindAlike(sql, n, formatsEmpty) {
      OnlyPortableBindsAlike(sql, Blanks(n), formatsEmpty);
    }
  }

  function Blanks(n: nat): (args: seq<string>)
    ensures |args| == n && forall i :: 0 <= i < n ==> args[i] == ""
  {
    seq(n, i => "")
  }

  lemma PortableBindsAlike(sql: string, args: seq<string>, formatsEmpty: bool)
    requires Pg(sql).Ok?
    requires var cs := Scan(sql, Closed, false).chunks;
             Portable(sql, cs, formatsEmpty) && |args| == CountCode(cs)
    ensures BindAlike(sql, args, formatsEmpty)
  {
    var cs := Scan(sql, Closed, false).chunks;
    ScanIsLexed(sql, Closed, false);
    PgPreservesLexing(sql);
    BindNumbered(cs, args, 0);
    assert args[0..] == args;
    MySqlBindsInOrder(sql, args, formatsEmpty);
    if args == [] {
      NoCodeQmarks(cs);
    } else {
      SubstitutionsAgree(cs, Closed, args);
    }
  }

  lemma {:induction false} NoCodeQmarks(cs: seq<Chunk>)
    requires CountCode(cs) == 0
    ensures SubstituteCode(cs, []) == Text(cs)
    ensures BindDollars(Numbered(cs, 0), []) == if Unambiguous(cs) then Some(Text(cs)) else None
  {
    if cs != [] {
      UnambiguousTail(cs);
      NumberedOther(cs, 0);
      NumberedHead(cs[1..], 0);
      NoCodeQmarks(cs[1..]);
    }
  }

  /** The code digits at the front of a chunk list, apart from the rest. */
  lemma {:induction false} RunSplits(cs: seq<Chunk>)
    ensures |Text(cs)| == |DigitRun(cs)| + |Text(cs[|DigitRun(cs)|..])|
    ensures CountCode(cs) == CountCode(cs[|DigitRun(cs)|..])
  {
    if cs != [] && IsCodeDigit(cs[0]) {
      RunSplits(cs[1..]);
      assert cs[|DigitRun(cs)|..] == cs[1..][|DigitRun(cs[1..])|..];
    } else {
      assert cs[0..] == cs;
    }
  }

  /** Numbering leaves the digits at the front alone. */
  lemma {:induction false} RunIsKept(cs: seq<Chunk>, idx: nat)
    ensures DigitRun(Numbered(cs, idx)) == DigitRun(cs)
    ensures Numbered(cs, idx)[|DigitRun(cs)|..] == Numbered(cs[|DigitRun(cs)|..], idx)
  {
    if cs != [] && IsCodeDigit(cs[0]) {
      RunIsKept(cs[1..], idx);
      NumberedOther(cs, idx);
      assert cs[|DigitRun(cs)|..] == cs[1..][|DigitRun(cs[1..])|..];
      var out := Numbered(cs, idx);
      assert out[|DigitRun(cs)|..] == out[1..][|DigitRun(cs[1..])|..];
    } else {
      NumberedHead(cs, idx);
      assert cs[0..] == cs && Numbered(cs, idx)[0..] == Numbered(cs, idx);
    }
  }

  lemma BindRun(cs: seq<Chunk>, args: seq<string>, d: string, rest: seq<Chunk>)
    requires DigitRun(cs) == d != "" && cs[|d|..] == rest
    ensures BindDollars([DOLLAR] + cs, args) == ThenRest(args, Numeral(d), BindDollars(rest, args))
  {
    ConsDrop(DOLLAR, cs, |d|);
  }

  lemma AfterDigits(d: string, run: string, cs: seq<Chunk>)
    requires |run| <= |cs|
    ensures (CodeChunks(d) + cs)[|d + run|..] == cs[|run|..]
  {
  }

  /** What a server makes of a numbered `?` and the digits that touch it. */
  lemma BindTouching(cs: seq<Chunk>, args: seq<string>, idx: nat)
    requires cs != [] && cs[0] == QMARK
    ensures var run := DigitRun(cs[1..]);
            BindDollars(Numbered(cs, idx), args)
            == ThenRest(args, Numeral(Decimal(idx + 1) + run), BindDollars(Numbered(cs[1..][|run|..], idx + 1), args))
  {
    var rest, d, run := Numbered(cs[1..], idx + 1), Decimal(idx + 1), DigitRun(cs[1..]);
    RunIsKept(cs[1..], idx + 1);
    DigitsExtendTheRun(d, rest);
    AfterDigits(d, run, rest);
    BindRun(CodeChunks(d) + rest, args, d + run, rest[|run|..]);
    ConcatAssoc([DOLLAR], CodeChunks(d), rest);
  }

  /** `bound` is at least as short as the text without its code `?`, and shorter if digits were touched. */
  predicate Short(bound: Option<string>, cs: seq<Chunk>) {
    bound.Some? ==>
      && |bound.value| + CountCode(cs) <= |Text(cs)|
      && (|bound.value| + CountCode(cs) == |Text(cs)| ==> Unambiguous(cs))
  }

  lemma ShortTouching(cs: seq<Chunk>, bound: Option<string>)
    requires cs != [] && (cs[0] == QMARK || (cs[0] == DOLLAR && DigitRun(cs[1..]) != ""))
    requires Short(bound, cs[1..][|DigitRun(cs[1..])|..])
    ensures Short(bound, cs)
  {
    var rest, run := cs[1..], DigitRun(cs[1..]);
    RunSplits(rest);
    UnambiguousTail(cs);
    assert run == "" ==> rest[|run|..] == rest;
    assert |Text(cs)| == 1 + |run| + |Text(rest[|run|..])|;
  }

  lemma ShortOther(cs: seq<Chunk>, bound: Option<string>)
    requires cs != [] && cs[0] != QMARK && (cs[0] == DOLLAR ==> DigitRun(cs[1..]) == "")
    requires Short(bound, cs[1..])
    ensures Short(if bound.None? then None else Some(cs[0].text + bound.value), cs)
  {
    UnambiguousTail(cs);
    RunSplits(cs[1..]);
  }

  lemma BindOther(cs: seq<Chunk>, args: seq<string>, idx: nat)
    requires cs != [] && cs[0] != QMARK && (cs[0] == DOLLAR ==> DigitRun(cs[1..]) == "")
    ensures var bound := BindDollars(Numbered(cs[1..], idx), args);
            BindDollars(Numbered(cs, idx), args) == if bound.None? then None else Some(cs[0].text + bound.value)
  {
    NumberedOther(cs, idx);
    RunIsKept(cs[1..], idx);
  }

  /** With empty arguments, what is bound is too short by at least the digits that were touched. */
  lemma {:induction false} BlanksAreShort(cs: seq<Chunk>, blanks: seq<string>, idx: nat)
    requires forall i :: 0 <= i < |blanks| ==> blanks[i] == ""
    ensures Short(BindDollars(Numbered(cs, idx), blanks), cs)
    decreases |cs|
  {
    if cs == [] {
    } else if cs[0] == QMARK {
      var rest := cs[1..][|DigitRun(cs[1..])|..];
      BindTouching(cs, blanks, idx);
      BlanksAreShort(rest, blanks, idx + 1);
      ShortTouching(cs, BindDollars(Numbered(rest, idx + 1), blanks));
    } else if cs[0] == DOLLAR && DigitRun(cs[1..]) != "" {
      var rest := cs[1..][|DigitRun(cs[1..])|..];
      NumberedOther(cs, idx);
      RunIsKept(cs[1..], idx);
      BindRun(Numbered(cs[1..], idx), blanks, DigitRun(cs[1..]), Numbered(rest, idx));
      BlanksAreShort(rest, blanks, idx);
      ShortTouching(cs, BindDollars(Numbered(rest, idx), blanks));
    } else {
      BindOther(cs, blanks, idx);
      BlanksAreShort(cs[1..], blanks, idx);
      ShortOther(cs, BindDollars(Numbered(cs[1..], idx), blanks));
    }
  }

  lemma {:induction false} BlanksSubstituted(cs: seq<Chunk>, blanks: seq<string>)
    requires CountCode(cs) == |blanks| && forall i :: 0 <= i < |blanks| ==> blanks[i] == ""
    ensures |SubstituteCode(cs, blanks)| + CountCode(cs) == |Text(cs)|
  {
    if cs != [] {
      BlanksSubstituted(cs[1..], if cs[0] == QMARK then blanks[1..] else blanks);
    }
  }

  /** Empty arguments tell the dialects apart whenever anything does. */
  lemma OnlyPortableBindsAlike(sql: string, blanks: seq<string>, formatsEmpty: bool)
    requires Pg(sql).Ok? && |blanks| == CountCode(Scan(sql, Closed, false).chunks)
    requires forall i :: 0 <= i < |blanks| ==> blanks[i] == ""
    requires BindAlike(sql, blanks, formatsEmpty)
    ensures Portable(sql, Scan(sql, Closed, false).chunks, formatsEmpty)
  {
    var cs := Scan(sql, Closed, false).chunks;
    ScanIsLexed(sql, Closed, false);
    PgPreservesLexing(sql);
    MySqlBindsInOrder(sql, blanks, formatsEmpty);
    if blanks == [] {
      NoCodeQmarks(cs);
    } else {
      CountsAgree(cs, Closed);
      SubstitutionsAgree(cs, Closed, blanks);
      BlanksSubstituted(cs, blanks);
      BlanksAreShort(cs, blanks, 0);
    }
  }

  /** Both rewrites expect the same number of arguments exactly when every `?` is code. */
  lemma DialectsCountAlike(sql: string)
    requires Pg(sql).Ok?
    ensures var cs := Scan(sql, Closed, false).chunks;
            CountQmarks(sql) == CountCode(cs) <==> QmarksAreCode(cs)
  {
    ScanIsLexed(sql, Closed, false);
    CountsAgree(Scan(sql, Closed, false).chunks, Closed);
  }
}
