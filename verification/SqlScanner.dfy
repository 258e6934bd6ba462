/** The SQL text scanners and the result truncation of crates/data-node/src/sql.rs. A text is the sequence of its
    bytes. */
module SqlScanner {
  import opened Base

  // ---- a small lexer ----

  predicate At(b: string, i: nat, c: char) { i < |b| && b[i] == c }

  predicate IsBlank(c: char) { c == ' ' || c == '\t' || c == '\r' || c == '\n' }

  predicate IsQuote(c: char) { c == '\'' || c == '"' || c == '`' }

  predicate LineStarts(b: string, i: nat) { At(b, i, '-') && At(b, i + 1, '-') }

  predicate BlockStarts(b: string, i: nat) { At(b, i, '/') && At(b, i + 1, '*') }

  /** The newline that ends a line comment, or the end of the text. */
  function LineEnd(b: string, i: nat): (r: nat)
    requires i <= |b|
    ensures i <= r <= |b| && (r < |b| ==> b[r] == '\n')
    decreases |b| - i
  {
    if i == |b| || b[i] == '\n' then i else LineEnd(b, i + 1)
  }

  /** The position after the comment terminator at or after `i`, or the end of the text. */
  function BlockEnd(b: string, i: nat): (r: nat)
    requires i <= |b|
    ensures i <= r <= |b| && (i < |b| ==> i < r)
    decreases |b| - i
  {
    if i + 1 >= |b| then |b| else if b[i] == '*' && b[i + 1] == '/' then i + 2 else BlockEnd(b, i + 1)
  }

  /** The closing quote at or after `i`, where a doubled quote does not close, or the end of the text. */
  function QuoteEnd(b: string, i: nat, q: char): (r: nat)
    requires i <= |b|
    ensures i <= r <= |b|
    decreases |b| - i
  {
    if i == |b| then i
    else if b[i] == q then if At(b, i + 1, q) then QuoteEnd(b, i + 2, q) else i
    else QuoteEnd(b, i + 1, q)
  }

  function Cap(n: nat, max: nat): nat { if n < max then n else max }

  /** Where the token at `i` ends. */
  function TokenEnd(b: string, i: nat): (r: nat)
    requires i < |b|
    ensures i < r <= |b|
  {
    if IsQuote(b[i]) then Cap(QuoteEnd(b, i + 1, b[i]) + 1, |b|)
    else if LineStarts(b, i) then LineEnd(b, i)
    else if BlockStarts(b, i) then BlockEnd(b, i + 2)
    else i + 1
  }

  predicate TriviaStarts(b: string, i: nat) { i < |b| && (IsBlank(b[i]) || LineStarts(b, i) || BlockStarts(b, i)) }

  /** The first position from `i` on that belongs to a statement. */
  function SkipTrivia(b: string, i: nat): (r: nat)
    requires i <= |b|
    ensures i <= r <= |b| && !TriviaStarts(b, r)
    decreases |b| - i
  {
    if TriviaStarts(b, i) then SkipTrivia(b, TokenEnd(b, i)) else i
  }

  /** The first semicolon outside quotes and comments. */
  function FirstSemi(b: string, i: nat): (r: Option<nat>)
    requires i <= |b|
    ensures r.Some? ==> i <= r.value < |b| && b[r.value] == ';'
    decreases |b| - i
  {
    if i == |b| then None else if b[i] == ';' then Some(i) else FirstSemi(b, TokenEnd(b, i))
  }

  /** Something other than blanks and comments follows the semicolon at `semi`. */
  predicate MoreAfter(b: string, semi: Option<nat>)
    requires semi.Some? ==> semi.value < |b|
  {
    semi.Some? && SkipTrivia(b, semi.value + 1) < |b|
  }

  predicate ManyStatements(b: string) { MoreAfter(b, FirstSemi(b, 0)) }

  // ---- the scanners ----

  method SkipQuoted(b: string, start: nat, quote: char) returns (i: nat)
    requires start < |b|
    ensures i == QuoteEnd(b, start + 1, quote)
  {
    i := start + 1;
    while i < |b|
      invariant i <= |b| && QuoteEnd(b, i, quote) == QuoteEnd(b, start + 1, quote)
    {
      if b[i] == quote {
        if i + 1 < |b| && b[i + 1] == quote {
          i := i + 2;
          continue;
        }
        break;
      }
      i := i + 1;
    }
  }

  /** The loop that runs to the end of a line comment. */
  method SkipLine(b: string, start: nat) returns (i: nat)
    requires start <= |b|
    ensures i == LineEnd(b, start)
  {
    i := start;
    while i < |b| && b[i] != '\n'
      invariant i <= |b| && LineEnd(b, i) == LineEnd(b, start)
    {
      i := i + 1;
    }
  }

  /** The loop that runs past the end of a block comment opened at `start`. */
  method SkipBlock(b: string, start: nat) returns (i: nat)
    requires start + 1 < |b|
    ensures i == BlockEnd(b, start + 2)
  {
    i := start + 2;
    while i + 1 < |b| && !(b[i] == '*' && b[i + 1] == '/')
      invariant i <= |b| && BlockEnd(b, i) == BlockEnd(b, start + 2)
    {
      i := i + 1;
    }
    i := if i + 2 < |b| then i + 2 else |b|;
  }

  method SkipLeadingTrivia(b: string) returns (i: nat)
    ensures i == SkipTrivia(b, 0)
  {
    i := 0;
    while i < |b|
      invariant i <= |b| && SkipTrivia(b, i) == SkipTrivia(b, 0)
      decreases |b| - i
    {
      if b[i] == ' ' || b[i] == '\t' || b[i] == '\r' || b[i] == '\n' {
        i := i + 1;
      } else if b[i] == '-' && i + 1 < |b| && b[i + 1] == '-' {
        i := SkipLine(b, i);
      } else if b[i] == '/' && i + 1 < |b| && b[i + 1] == '*' {
        i := SkipBlock(b, i);
      } else {
        break;
      }
    }
  }

  method TrailingHasSql(b: string, start: nat) returns (r: bool)
    requires start <= |b|
    ensures r <==> SkipTrivia(b, start) < |b|
  {
    var i := start;
    while true
      invariant i <= |b| && SkipTrivia(b, i) == SkipTrivia(b, start)
      decreases |b| - i
    {
      ghost var from := i;
      while i < |b| && IsBlank(b[i])
        invariant from <= i <= |b| && SkipTrivia(b, i) == SkipTrivia(b, start)
      {
        i := i + 1;
      }
      if i >= |b| { return false; }
      if b[i] == '-' && i + 1 < |b| && b[i + 1] == '-' {
        i := SkipLine(b, i);
      } else if b[i] == '/' && i + 1 < |b| && b[i + 1] == '*' {
        i := SkipBlock(b, i);
      } else {
        return true;
      }
    }
  }

  /** The step of the statement scan: past a block comment it goes one byte further than the comment. */
  function ScanNext(b: string, i: nat): (r: nat)
    requires i < |b|
    ensures i < r
  {
    if IsQuote(b[i]) then QuoteEnd(b, i + 1, b[i]) + 1
    else if LineStarts(b, i) then LineEnd(b, i) + 1
    else if BlockStarts(b, i) then BlockEnd(b, i + 2) + 1
    else i + 1
  }

  /** The semicolon the statement scan stops at. */
  function ScanSemi(b: string, i: nat): (r: Option<nat>)
    ensures r.Some? ==> i <= r.value < |b|
    decreases |b| - i
  {
    if i >= |b| then None else if b[i] == ';' then Some(i) else ScanSemi(b, ScanNext(b, i))
  }

  predicate ScanVerdict(b: string) { MoreAfter(b, ScanSemi(b, 0)) }

  method HasMultipleStatements(b: string) returns (r: bool)
    ensures r <==> ScanVerdict(b)
  {
    var i := 0;
    while i < |b|
      invariant ScanSemi(b, i) == ScanSemi(b, 0)
      decreases |b| - i
    {
      var c := b[i];
      if c == '\'' || c == '"' || c == '`' {
        i := SkipQuoted(b, i, c);
      } else if c == '-' && i + 1 < |b| && b[i + 1] == '-' {
        i := SkipLine(b, i);
      } else if c == '/' && i + 1 < |b| && b[i + 1] == '*' {
        i := SkipBlock(b, i);
      } else if c == ';' {
        r := TrailingHasSql(b, i + 1);
        return;
      }
      i := i + 1;
    }
    r := false;
  }

  // ---- when the scan agrees with the lexer ----

  /** A byte that is a token of its own and no semicolon. */
  predicate Inert(b: string, i: nat) {
    i < |b| && b[i] != ';' && !IsQuote(b[i]) && !LineStarts(b, i) && !BlockStarts(b, i)
  }

  /** Up to the first semicolon, every block comment is followed by an inert byte or by the end of the text. */
  predicate CommentsPadded(b: string, i: nat)
    requires i <= |b|
    decreases |b| - i
  {
    i == |b| || b[i] == ';' ||
    (CommentsPadded(b, TokenEnd(b, i)) && (BlockStarts(b, i) ==> TokenEnd(b, i) == |b| || Inert(b, TokenEnd(b, i))))
  }

  /** No block comment opens before the first semicolon. */
  predicate NoBlockComment(b: string, i: nat)
    requires i <= |b|
    decreases |b| - i
  {
    i == |b| || b[i] == ';' || (!BlockStarts(b, i) && NoBlockComment(b, TokenEnd(b, i)))
  }

  lemma {:induction false} NoBlockCommentIsPadded(b: string, i: nat)
    requires i <= |b| && NoBlockComment(b, i)
    ensures CommentsPadded(b, i)
    decreases |b| - i
  {
    if i < |b| && b[i] != ';' { NoBlockCommentIsPadded(b, TokenEnd(b, i)); }
  }

  lemma {:induction false} ScanAgrees(b: string, i: nat)
    requires i <= |b| && CommentsPadded(b, i)
    ensures ScanSemi(b, i) == FirstSemi(b, i)
    decreases |b| - i
  {
    if i < |b| && b[i] != ';' {
      var e := TokenEnd(b, i);
      if IsQuote(b[i]) || !(LineStarts(b, i) || BlockStarts(b, i)) || e == |b| {
        ScanAgrees(b, e);
      } else {
        assert CommentsPadded(b, e) && Inert(b, e) && TokenEnd(b, e) == e + 1;
        ScanAgrees(b, e + 1);
        assert FirstSemi(b, e) == FirstSemi(b, e + 1);
      }
    }
  }

  /** Where comments are padded the scan rejects a text exactly when it holds more than one statement. */
  lemma VerdictIsRight(b: string)
    requires CommentsPadded(b, 0)
    ensures ScanVerdict(b) <==> ManyStatements(b)
  {
    ScanAgrees(b, 0);
  }

  /** Without a block comment before the first semicolon the verdict is right. */
  lemma NoBlockCommentIsRight(b: string)
    requires NoBlockComment(b, 0)
    ensures ScanVerdict(b) <==> ManyStatements(b)
  {
    NoBlockCommentIsPadded(b, 0);
    VerdictIsRight(b);
  }

  /** A semicolon right after a block comment is not seen, so the second statement goes through; and a quote there
      is not seen either, so a quoted semicolon is taken for a separator. */
  lemma UnpaddedCommentMisleads()
    ensures ManyStatements("/**/;x") && !ScanVerdict("/**/;x")
    ensures !ManyStatements("/**/';x'") && ScanVerdict("/**/';x'")
  {
    var b := "/**/;x";
    assert BlockEnd(b, 2) == 4;
    assert FirstSemi(b, 0) == FirstSemi(b, 4) == Some(4);
    assert SkipTrivia(b, 5) == 5;
    assert ScanSemi(b, 0) == ScanSemi(b, 5) == ScanSemi(b, 6) == None;
    var c := "/**/';x'";
    assert BlockEnd(c, 2) == 4;
    assert QuoteEnd(c, 5, '\'') == QuoteEnd(c, 6, '\'') == QuoteEnd(c, 7, '\'') == 7;
    assert FirstSemi(c, 0) == FirstSemi(c, 4) == FirstSemi(c, 8) == None;
    assert ScanSemi(c, 0) == ScanSemi(c, 5) == Some(5);
    assert SkipTrivia(c, 6) == 6;
  }

  // ---- the lexer on a suffix ----

  lemma {:induction false} LineEndShift(b: string, s: nat, i: nat)
    requires s <= i <= |b|
    ensures LineEnd(b, i) == LineEnd(b[s..], i - s) + s
    decreases |b| - i
  {
    if i < |b| && b[i] != '\n' { LineEndShift(b, s, i + 1); }
  }

  lemma {:induction false} BlockEndShift(b: string, s: nat, i: nat)
    requires s <= i <= |b|
    ensures BlockEnd(b, i) == BlockEnd(b[s..], i - s) + s
    decreases |b| - i
  {
    if i + 1 < |b| && !(b[i] == '*' && b[i + 1] == '/') { BlockEndShift(b, s, i + 1); }
  }

  /** Scanning from a position is scanning the rest of the text: what follows a semicolon counts as a statement
      exactly when leading trivia does not take up all of it. */
  lemma {:induction false} TrailingIsLeading(b: string, s: nat, i: nat)
    requires s <= i <= |b|
    ensures SkipTrivia(b, i) == SkipTrivia(b[s..], i - s) + s
    decreases |b| - i
  {
    if TriviaStarts(b, i) {
      var e := TokenEnd(b, i);
      if LineStarts(b, i) {
        LineEndShift(b, s, i);
      } else if BlockStarts(b, i) {
        BlockEndShift(b, s, i + 2);
      }
      assert TokenEnd(b[s..], i - s) == e - s;
      TrailingIsLeading(b, s, e);
    }
  }

  lemma {:induction false} QuoteEndShift(b: string, s: nat, i: nat, q: char)
    requires s <= i <= |b|
    ensures QuoteEnd(b, i, q) == QuoteEnd(b[s..], i - s, q) + s
    decreases |b| - i
  {
    if i < |b| {
      if b[i] != q {
        QuoteEndShift(b, s, i + 1, q);
      } else if At(b, i + 1, q) {
        QuoteEndShift(b, s, i + 2, q);
      }
    }
  }

  lemma TokenShift(b: string, s: nat, i: nat)
    requires s <= i < |b|
    ensures TokenEnd(b, i) == TokenEnd(b[s..], i - s) + s && ScanNext(b, i) == ScanNext(b[s..], i - s) + s
  {
    QuoteEndShift(b, s, i + 1, b[i]);
    LineEndShift(b, s, i);
    if BlockStarts(b, i) { BlockEndShift(b, s, i + 2); }
  }

  function Shift(r: Option<nat>, s: nat): Option<nat> { match r case None => None case Some(n) => Some(n + s) }

  lemma {:induction false} FirstSemiShift(b: string, s: nat, i: nat)
    requires s <= i <= |b|
    ensures FirstSemi(b, i) == Shift(FirstSemi(b[s..], i - s), s)
    decreases |b| - i
  {
    if i < |b| && b[i] != ';' {
      TokenShift(b, s, i);
      FirstSemiShift(b, s, TokenEnd(b, i));
    }
  }

  lemma {:induction false} ScanSemiShift(b: string, s: nat, i: nat)
    requires s <= |b| && s <= i
    ensures ScanSemi(b, i) == Shift(ScanSemi(b[s..], i - s), s)
    decreases |b| - i
  {
    if i < |b| && b[i] != ';' {
      TokenShift(b, s, i);
      ScanSemiShift(b, s, ScanNext(b, i));
    }
  }

  lemma MoreAfterShift(b: string, s: nat, semi: Option<nat>)
    requires s <= |b| && (semi.Some? ==> semi.value < |b[s..]|)
    ensures MoreAfter(b, Shift(semi, s)) <==> MoreAfter(b[s..], semi)
  {
    if semi.Some? { TrailingIsLeading(b, s, semi.value + s + 1); }
  }

  /** Dropping a prefix the lexer has walked past does not change how many statements it sees. */
  lemma StatementsShift(b: string, s: nat)
    requires s <= |b| && FirstSemi(b, 0) == FirstSemi(b, s)
    ensures ManyStatements(b) <==> ManyStatements(b[s..])
  {
    FirstSemiShift(b, s, s);
    MoreAfterShift(b, s, FirstSemi(b[s..], 0));
  }

  lemma VerdictShift(b: string, s: nat)
    requires s <= |b| && ScanSemi(b, 0) == ScanSemi(b, s)
    ensures ScanVerdict(b) <==> ScanVerdict(b[s..])
  {
    ScanSemiShift(b, s, s);
    MoreAfterShift(b, s, ScanSemi(b[s..], 0));
  }

  // ---- the exact verdict on every text ----

  /** The text with the byte after each block comment blanked, as far as the scan goes: up to its semicolon. */
  function Blanked(b: string): (c: string)
    ensures |c| == |b|
    decreases |b|
  {
    if b == "" || b[0] == ';' then b
    else
      var n := Cap(ScanNext(b, 0), |b|);
      if BlockStarts(b, 0) && BlockEnd(b, 2) < |b| then b[..n - 1] + " " + Blanked(b[n..]) else b[..n] + Blanked(b[n..])
  }

  /** Blanking starts behind the first two bytes. */
  lemma {:induction false} BlankedKeepsHead(b: string, k: nat)
    requires k < 2 && k < |b|
    ensures Blanked(b)[k] == b[k]
    decreases |b|
  {
    if b[0] != ';' {
      var n := Cap(ScanNext(b, 0), |b|);
      if k >= n { BlankedKeepsHead(b[n..], k - n); }
      if BlockStarts(b, 0) { BlockEndAtLeast(b, 2); }
    }
  }

  lemma {:induction false} BlockEndAtLeast(b: string, i: nat)
    requires i <= |b|
    ensures BlockEnd(b, i) == |b| || i + 2 <= BlockEnd(b, i)
    decreases |b| - i
  {
    if i + 1 < |b| && !(b[i] == '*' && b[i + 1] == '/') { BlockEndAtLeast(b, i + 1); }
  }

  /** Texts of one length that agree on their first `n` bytes. */
  predicate Agree(b: string, c: string, n: nat) { |b| == |c| && forall i :: 0 <= i < n && i < |b| ==> b[i] == c[i] }

  lemma {:induction false} LineEndAgrees(b: string, c: string, i: nat)
    requires i <= |b| && Agree(b, c, LineEnd(b, i) + 1)
    ensures LineEnd(c, i) == LineEnd(b, i)
    decreases |b| - i
  {
    if i < |b| {
      assert b[i] == c[i];
      if b[i] != '\n' { LineEndAgrees(b, c, i + 1); }
    }
  }

  lemma {:induction false} QuoteEndAgrees(b: string, c: string, i: nat, q: char)
    requires i <= |b| && Agree(b, c, QuoteEnd(b, i, q) + 2)
    ensures QuoteEnd(c, i, q) == QuoteEnd(b, i, q)
    decreases |b| - i
  {
    if i < |b| {
      assert b[i] == c[i] && (i + 1 < |b| ==> b[i + 1] == c[i + 1]);
      if b[i] != q {
        QuoteEndAgrees(b, c, i + 1, q);
      } else if At(b, i + 1, q) {
        QuoteEndAgrees(b, c, i + 2, q);
      }
    }
  }

  lemma {:induction false} BlockEndAgrees(b: string, c: string, i: nat)
    requires i <= |b| && Agree(b, c, BlockEnd(b, i))
    ensures BlockEnd(c, i) == BlockEnd(b, i)
    decreases |b| - i
  {
    if i + 1 < |b| {
      BlockEndAtLeast(b, i);
      assert b[i] == c[i] && b[i + 1] == c[i + 1];
      if !(b[i] == '*' && b[i + 1] == '/') { BlockEndAgrees(b, c, i + 1); }
    }
  }

  lemma HeadAgrees(b: string, n: nat, rest: string)
    requires n <= |b| && |rest| == |b| - n && (n < |b| ==> rest[0] == b[n])
    ensures Agree(b, b[..n] + rest, n + 1)
  {
  }

  /** Outside block comments blanking keeps the scanned token and the byte after it. */
  lemma BlankedAgrees(b: string)
    requires b != "" && b[0] != ';' && !(BlockStarts(b, 0) && BlockEnd(b, 2) < |b|)
    ensures Agree(b, Blanked(b), Cap(ScanNext(b, 0), |b|) + 1)
  {
    var n := Cap(ScanNext(b, 0), |b|);
    if n < |b| { BlankedKeepsHead(b[n..], 0); }
    HeadAgrees(b, n, Blanked(b[n..]));
  }

  /** After a block comment there is a blank. */
  lemma BlankedAfterBlock(b: string)
    requires BlockStarts(b, 0) && BlockEnd(b, 2) < |b|
    ensures Agree(b, Blanked(b), BlockEnd(b, 2)) && Blanked(b)[BlockEnd(b, 2)] == ' '
  {
    var e := BlockEnd(b, 2);
    assert Blanked(b) == b[..e] + " " + Blanked(b[e + 1..]);
  }

  lemma QuoteStep(b: string, c: string)
    requires b != "" && IsQuote(b[0]) && Agree(b, c, QuoteEnd(b, 1, b[0]) + 2)
    ensures FirstSemi(c, 0) == FirstSemi(c, Cap(QuoteEnd(b, 1, b[0]) + 1, |b|))
  {
    assert c[0] == b[0];
    QuoteEndAgrees(b, c, 1, b[0]);
  }

  lemma LineStep(b: string, c: string)
    requires LineStarts(b, 0) && Agree(b, c, LineEnd(b, 0) + 1)
    ensures FirstSemi(c, 0) == FirstSemi(c, Cap(LineEnd(b, 0) + 1, |b|))
  {
    var n := LineEnd(b, 0);
    LineEndAgrees(b, c, 0);
    LineEndBehind(b);
    assert c[0] == b[0] && c[1] == b[1];
    assert TokenEnd(c, 0) == n;
    if n < |b| { assert c[n] == '\n' && TokenEnd(c, n) == n + 1; }
  }

  lemma LineEndBehind(b: string)
    requires LineStarts(b, 0)
    ensures 2 <= LineEnd(b, 0)
  {
    assert LineEnd(b, 0) == LineEnd(b, 1) == LineEnd(b, 2);
  }

  lemma BlockStep(b: string, c: string)
    requires BlockStarts(b, 0) && Agree(b, c, BlockEnd(b, 2)) && (BlockEnd(b, 2) < |b| ==> c[BlockEnd(b, 2)] == ' ')
    ensures FirstSemi(c, 0) == FirstSemi(c, Cap(BlockEnd(b, 2) + 1, |b|))
  {
    var e := BlockEnd(b, 2);
    assert c[0] == b[0] && c[1] == b[1];
    BlockEndAgrees(b, c, 2);
    assert TokenEnd(c, 0) == e;
    if e < |b| { assert TokenEnd(c, e) == e + 1; }
  }

  lemma PlainStep(b: string, c: string)
    requires b != "" && b[0] != ';' && !IsQuote(b[0]) && !LineStarts(b, 0) && !BlockStarts(b, 0) && Agree(b, c, 2)
    ensures FirstSemi(c, 0) == FirstSemi(c, 1)
  {
    assert c[0] == b[0] && (1 < |b| ==> c[1] == b[1]);
    assert TokenEnd(c, 0) == 1;
  }

  /** A text that keeps the scanned token, with a blank after a block comment: there the lexer passes over what the
      scan passes over. */
  lemma StepOver(b: string, c: string)
    requires b != "" && b[0] != ';' && |c| == |b|
    requires BlockStarts(b, 0) && BlockEnd(b, 2) < |b| ==> Agree(b, c, BlockEnd(b, 2)) && c[BlockEnd(b, 2)] == ' '
    requires !(BlockStarts(b, 0) && BlockEnd(b, 2) < |b|) ==> Agree(b, c, Cap(ScanNext(b, 0), |b|) + 1)
    ensures FirstSemi(c, 0) == FirstSemi(c, Cap(ScanNext(b, 0), |b|))
  {
    if IsQuote(b[0]) {
      QuoteStep(b, c);
    } else if LineStarts(b, 0) {
      LineStep(b, c);
    } else if BlockStarts(b, 0) {
      BlockStep(b, c);
    } else {
      PlainStep(b, c);
    }
  }

  lemma BlankedStep(b: string)
    requires b != "" && b[0] != ';'
    ensures FirstSemi(Blanked(b), 0) == FirstSemi(Blanked(b), Cap(ScanNext(b, 0), |b|))
  {
    if BlockStarts(b, 0) && BlockEnd(b, 2) < |b| {
      BlankedAfterBlock(b);
    } else {
      BlankedAgrees(b);
    }
    StepOver(b, Blanked(b));
  }

  /** For every text: the scan's verdict is the right one for the text with the byte after each block comment
      blanked. */
  lemma {:induction false} VerdictOnBlanked(b: string)
    ensures ScanVerdict(b) <==> ManyStatements(Blanked(b))
    decreases |b|
  {
    if b != "" && b[0] != ';' {
      var n := Cap(ScanNext(b, 0), |b|);
      VerdictOnBlanked(b[n..]);
      VerdictShift(b, n);
      BlankedStep(b);
      assert Blanked(b)[n..] == Blanked(b[n..]);
      StatementsShift(Blanked(b), n);
    }
  }

  /** The scan is right about a text exactly when blanking those bytes does not change whether it holds more than
      one statement. */
  lemma VerdictRightExactly(b: string)
    ensures (ScanVerdict(b) <==> ManyStatements(b)) <==> (ManyStatements(Blanked(b)) <==> ManyStatements(b))
  {
    VerdictOnBlanked(b);
  }

  // ---- texts built from their parts ----

  /** Text inside quotes is written with its quotes doubled. */
  function Doubled(t: string, q: char): string {
    if t == "" then "" else (if t[0] == q then [q, q] else [t[0]]) + Doubled(t[1..], q)
  }

  /** The scan of a quoted text ends on its closing quote. */
  lemma {:induction false} QuotedTextCloses(pre: string, t: string, q: char, rest: string)
    requires rest == "" || rest[0] != q
    ensures QuoteEnd(pre + Doubled(t, q) + [q] + rest, |pre|, q) == |pre| + |Doubled(t, q)|
    decreases |t|
  {
    var b := pre + Doubled(t, q) + [q] + rest;
    if t != "" {
      var step := if t[0] == q then [q, q] else [t[0]];
      assert pre + Doubled(t, q) + [q] + rest == (pre + step) + Doubled(t[1..], q) + [q] + rest;
      QuotedTextCloses(pre + step, t[1..], q, rest);
    }
  }

  datatype Piece = Blank(c: char) | Line(text: string) | Block(text: string)

  predicate ClosesAt(b: string, i: nat) { At(b, i, '*') && At(b, i + 1, '/') }

  predicate PieceOk(p: Piece) {
    match p
    case Blank(c) => c in " \t\r\n"
    case Line(text) => '\n' !in text
    case Block(text) => forall i :: 0 <= i < |text| ==> !ClosesAt(text, i)
  }

  function RenderPiece(p: Piece): string {
    match p
    case Blank(c) => [c]
    case Line(text) => "--" + text + "\n"
    case Block(text) => "/*" + text + "*/"
  }

  function Render(pieces: seq<Piece>): string {
    if pieces == [] then "" else RenderPiece(pieces[0]) + Render(pieces[1..])
  }

  lemma {:induction false} LineEndIs(b: string, i: nat, n: nat)
    requires i <= n < |b| && b[n] == '\n' && forall k :: i <= k < n ==> b[k] != '\n'
    ensures LineEnd(b, i) == n
    decreases n - i
  {
    if i < n { LineEndIs(b, i + 1, n); }
  }

  lemma {:induction false} BlockEndIs(b: string, i: nat, n: nat)
    requires i <= n && ClosesAt(b, n) && forall k :: i <= k < n ==> !ClosesAt(b, k)
    ensures BlockEnd(b, i) == n + 2
    decreases n - i
  {
    if i < n {
      assert !ClosesAt(b, i);
      BlockEndIs(b, i + 1, n);
    }
  }

  lemma NoNewlineBefore(text: string, rest: string, k: nat)
    requires '\n' !in text && k < |text| + 2
    ensures ("--" + text + "\n" + rest)[k] != '\n'
  {
    var b := "--" + text + "\n" + rest;
    if k < 2 {
      assert b[k] == '-';
    } else {
      assert b[k] == text[k - 2];
    }
  }

  lemma LineTextEnds(text: string, rest: string)
    requires '\n' !in text
    ensures var b := "--" + text + "\n" + rest; LineStarts(b, 0) && LineEnd(b, 0) == |text| + 2 && b[|text| + 2] == '\n'
  {
    var b, n := "--" + text + "\n" + rest, |text| + 2;
    assert b[0] == '-' && b[1] == '-' && b[n] == '\n';
    forall k | 0 <= k < n ensures b[k] != '\n' { NoNewlineBefore(text, rest, k); }
    LineEndIs(b, 0, n);
  }

  lemma SkipsLine(text: string, rest: string)
    requires '\n' !in text
    ensures var b := "--" + text + "\n" + rest; SkipTrivia(b, 0) == SkipTrivia(b, |text| + 3)
  {
    LineTextEnds(text, rest);
    SkipsLineIn("--" + text + "\n" + rest, |text| + 2);
  }

  lemma SkipsLineIn(b: string, n: nat)
    requires LineStarts(b, 0) && LineEnd(b, 0) == n < |b|
    ensures SkipTrivia(b, 0) == SkipTrivia(b, n + 1)
  {
    assert TokenEnd(b, 0) == n && TokenEnd(b, n) == n + 1;
  }

  lemma SkipsBlockIn(b: string, n: nat)
    requires BlockStarts(b, 0) && BlockEnd(b, 2) == n
    ensures SkipTrivia(b, 0) == SkipTrivia(b, n)
  {
    assert TokenEnd(b, 0) == n;
  }

  lemma BodyStaysOpen(text: string, rest: string, k: nat)
    requires PieceOk(Block(text)) && k < |text|
    ensures !ClosesAt("/*" + text + "*/" + rest, k + 2)
  {
    var b := "/*" + text + "*/" + rest;
    assert !ClosesAt(text, k);
    assert b[k + 2] == text[k];
    if k + 1 < |text| {
      assert b[k + 3] == text[k + 1];
    } else {
      assert b[k + 3] == '*';
    }
  }

  lemma BodyEnds(text: string, rest: string)
    requires PieceOk(Block(text))
    ensures var b := "/*" + text + "*/" + rest; BlockStarts(b, 0) && BlockEnd(b, 2) == |text| + 4
  {
    var b := "/*" + text + "*/" + rest;
    var n := |text| + 2;
    assert b[0] == '/' && b[1] == '*' && b[n] == '*' && b[n + 1] == '/';
    forall k | 2 <= k < n ensures !ClosesAt(b, k) { BodyStaysOpen(text, rest, k - 2); }
    BlockEndIs(b, 2, n);
  }

  lemma SkipsBlock(text: string, rest: string)
    requires PieceOk(Block(text))
    ensures var b := "/*" + text + "*/" + rest; SkipTrivia(b, 0) == SkipTrivia(b, |text| + 4)
  {
    BodyEnds(text, rest);
    SkipsBlockIn("/*" + text + "*/" + rest, |text| + 4);
  }

  /** A comment that is never closed takes up the rest of the text. */
  lemma OpenCommentIsTrivia(text: string)
    ensures '\n' !in text ==> SkipTrivia("--" + text, 0) == |text| + 2
    ensures (forall i :: 0 <= i < |text| ==> !ClosesAt(text, i)) ==> SkipTrivia("/*" + text, 0) == |text| + 2
  {
    var a, b := "--" + text, "/*" + text;
    if '\n' !in text {
      forall k | 0 <= k < |a| ensures a[k] != '\n' { assert k >= 2 ==> a[k] == text[k - 2]; }
      LineNeverEnds(a, 0);
      assert TokenEnd(a, 0) == |a|;
    }
    if forall i :: 0 <= i < |text| ==> !ClosesAt(text, i) {
      forall k | 2 <= k < |b| ensures !ClosesAt(b, k) { assert b[k] == text[k - 2] && !ClosesAt(text, k - 2); }
      BlockNeverEnds(b, 2);
      assert TokenEnd(b, 0) == |b|;
    }
  }

  lemma {:induction false} LineNeverEnds(b: string, i: nat)
    requires i <= |b| && forall k :: i <= k < |b| ==> b[k] != '\n'
    ensures LineEnd(b, i) == |b|
    decreases |b| - i
  {
    if i < |b| { LineNeverEnds(b, i + 1); }
  }

  lemma {:induction false} BlockNeverEnds(b: string, i: nat)
    requires i <= |b| && forall k :: i <= k < |b| ==> !ClosesAt(b, k)
    ensures BlockEnd(b, i) == |b|
    decreases |b| - i
  {
    if i + 1 < |b| {
      assert !ClosesAt(b, i);
      BlockNeverEnds(b, i + 1);
    }
  }

  lemma SkipsBlank(b: string)
    requires b != "" && IsBlank(b[0])
    ensures SkipTrivia(b, 0) == SkipTrivia(b, 1)
  {
    assert TokenEnd(b, 0) == 1;
  }

  lemma SkipsHead(p: Piece, tail: string)
    requires PieceOk(p)
    ensures SkipTrivia(RenderPiece(p) + tail, 0) == SkipTrivia(RenderPiece(p) + tail, |RenderPiece(p)|)
  {
    match p {
      case Blank(c) => SkipsBlank([c] + tail);
      case Line(text) => SkipsLine(text, tail);
      case Block(text) => SkipsBlock(text, tail);
    }
  }

  lemma SkipsPiece(p: Piece, tail: string)
    requires PieceOk(p)
    ensures SkipTrivia(RenderPiece(p) + tail, 0) == |RenderPiece(p)| + SkipTrivia(tail, 0)
  {
    var head := RenderPiece(p);
    SkipsHead(p, tail);
    assert (head + tail)[|head|..] == tail;
    TrailingIsLeading(head + tail, |head|, |head|);
  }

  /** Any blanks, line comments and block comments are skipped, and nothing after them. */
  lemma {:induction false} SkipsExactlyTrivia(pieces: seq<Piece>, rest: string)
    requires forall i :: 0 <= i < |pieces| ==> PieceOk(pieces[i])
    requires !TriviaStarts(rest, 0)
    ensures SkipTrivia(Render(pieces) + rest, 0) == |Render(pieces)|
    decreases |pieces|
  {
    if pieces == [] {
      assert Render(pieces) + rest == rest;
    } else {
      var head, tail := RenderPiece(pieces[0]), Render(pieces[1..]) + rest;
      assert Render(pieces) + rest == head + tail;
      SkipsExactlyTrivia(pieces[1..], rest);
      SkipsPiece(pieces[0], tail);
    }
  }

  // ---- whole statements ----

  /** What a text is made of: plain bytes, quoted text, blanks and comments. */
  datatype Token = Plain(c: char) | Quoted(q: char, text: string) | Note(piece: Piece)

  function TokenText(tok: Token): string {
    match tok
    case Plain(c) => [c]
    case Quoted(q, text) => [q] + Doubled(text, q) + [q]
    case Note(piece) => RenderPiece(piece)
  }

  function Text(toks: seq<Token>): string {
    if toks == [] then "" else TokenText(toks[0]) + Text(toks[1..])
  }

  /** The token can stand before `rest` and be read as itself. */
  predicate Fits(tok: Token, rest: string) {
    match tok
    case Plain(c) =>
      c !in ";'\"`" && !(c == '-' && At(rest, 0, '-')) && !(c == '/' && At(rest, 0, '*'))
    case Quoted(q, _) => q in "'\"`" && !At(rest, 0, q)
    case Note(piece) => PieceOk(piece)
  }

  predicate AllFit(toks: seq<Token>, rest: string)
    decreases |toks|
  {
    toks == [] || (Fits(toks[0], Text(toks[1..]) + rest) && AllFit(toks[1..], rest))
  }

  lemma PlainPassed(c: char, rest: string)
    requires Fits(Plain(c), rest)
    ensures var b := [c] + rest; TokenEnd(b, 0) == 1 && b[0] != ';' && !BlockStarts(b, 0)
  {
    var b := [c] + rest;
    assert b[0] == c && (rest != "" ==> b[1] == rest[0]);
  }

  lemma QuotedPassed(q: char, text: string, rest: string)
    requires Fits(Quoted(q, text), rest)
    ensures var head := TokenText(Quoted(q, text));
            var b := head + rest; TokenEnd(b, 0) == |head| && b[0] != ';' && !BlockStarts(b, 0)
  {
    var b := [q] + Doubled(text, q) + [q] + rest;
    QuotedTextCloses([q], text, q, rest);
    assert b[0] == q && b == TokenText(Quoted(q, text)) + rest;
  }

  lemma LinePassed(text: string, rest: string)
    requires '\n' !in text
    ensures var b := "--" + text + "\n" + rest;
            && TokenEnd(b, 0) == |text| + 2 && TokenEnd(b, |text| + 2) == |text| + 3
            && b[0] != ';' && b[|text| + 2] != ';' && !BlockStarts(b, 0) && !BlockStarts(b, |text| + 2)
  {
    LineTextEnds(text, rest);
  }

  lemma BlockPassed(text: string, rest: string)
    requires PieceOk(Block(text))
    ensures var b := "/*" + text + "*/" + rest; TokenEnd(b, 0) == |text| + 4 && b[0] != ';'
  {
    BodyEnds(text, rest);
  }

  /** The lexer passes over a token to what follows it. */
  lemma TokenPassed(tok: Token, rest: string)
    requires Fits(tok, rest)
    ensures var head := TokenText(tok); FirstSemi(head + rest, 0) == FirstSemi(head + rest, |head|)
  {
    match tok {
      case Plain(c) => PlainPassed(c, rest);
      case Quoted(q, text) => QuotedPassed(q, text, rest);
      case Note(Blank(c)) => assert ([c] + rest)[0] == c && TokenEnd([c] + rest, 0) == 1;
      case Note(Line(text)) => LinePassed(text, rest);
      case Note(Block(text)) => BlockPassed(text, rest);
    }
  }

  /** A head the lexer passes over only moves the semicolon. */
  predicate Passes(head: string, tail: string) { FirstSemi(head + tail, 0) == Shift(FirstSemi(tail, 0), |head|) }

  lemma DropPassed(b: string, s: nat)
    requires s <= |b| && FirstSemi(b, 0) == FirstSemi(b, s)
    ensures FirstSemi(b, 0) == Shift(FirstSemi(b[s..], 0), s)
  {
    FirstSemiShift(b, s, s);
  }

  lemma TokenPasses(tok: Token, rest: string)
    requires Fits(tok, rest)
    ensures Passes(TokenText(tok), rest)
  {
    var head := TokenText(tok);
    TokenPassed(tok, rest);
    DropPassed(head + rest, |head|);
    assert (head + rest)[|head|..] == rest;
  }

  lemma PassesBoth(a: string, b: string, rest: string)
    requires Passes(a, b + rest) && Passes(b, rest)
    ensures Passes(a + b, rest)
  {
    assert a + b + rest == a + (b + rest);
  }

  lemma {:induction false} TokensPass(toks: seq<Token>, rest: string)
    requires AllFit(toks, rest)
    ensures Passes(Text(toks), rest)
    decreases |toks|
  {
    if toks == [] {
      assert "" + rest == rest;
    } else {
      TokenPasses(toks[0], Text(toks[1..]) + rest);
      TokensPass(toks[1..], rest);
      PassesBoth(TokenText(toks[0]), Text(toks[1..]), rest);
    }
  }

  lemma SemicolonFirst(tail: string)
    ensures FirstSemi(";" + tail, 0) == Some(0)
  {
  }

  /** The first semicolon of `b` is at `n` and `tail` follows it. */
  predicate Splits(b: string, n: nat, tail: string) { n < |b| && FirstSemi(b, 0) == Some(n) && b[n + 1..] == tail }

  lemma PassesSplits(head: string, tail: string)
    requires Passes(head, ";" + tail)
    ensures Splits(head + (";" + tail), |head|, tail)
  {
    SemicolonFirst(tail);
    assert (head + (";" + tail))[|head| + 1..] == tail;
  }

  /** After the first semicolon, whatever is not trivia is another statement. */
  lemma SplitCounts(b: string, n: nat, tail: string)
    requires Splits(b, n, tail)
    ensures ManyStatements(b) <==> SkipTrivia(tail, 0) < |tail|
  {
    TrailingIsLeading(b, n + 1, n + 1);
  }

  lemma SemicolonCut(head: string, tail: string)
    requires Passes(head, ";" + tail)
    ensures ManyStatements(head + (";" + tail)) <==> SkipTrivia(tail, 0) < |tail|
  {
    PassesSplits(head, tail);
    SplitCounts(head + (";" + tail), |head|, tail);
  }

  /** A statement of any plain bytes, quoted text and comments, then a semicolon, then any blanks and comments, then
      `rest`: it holds more than one statement exactly when there is a rest. Semicolons inside quotes and comments do
      not count. */
  lemma CountsStatements(toks: seq<Token>, pieces: seq<Piece>, rest: string)
    requires AllFit(toks, ";" + (Render(pieces) + rest)) && !TriviaStarts(rest, 0)
    requires forall i :: 0 <= i < |pieces| ==> PieceOk(pieces[i])
    ensures ManyStatements(Text(toks) + (";" + (Render(pieces) + rest))) <==> rest != ""
  {
    TokensPass(toks, ";" + (Render(pieces) + rest));
    SkipsExactlyTrivia(pieces, rest);
    SemicolonCut(Text(toks), Render(pieces) + rest);
  }

  /** Without a semicolon outside quotes and comments it holds no more than one. */
  lemma OneStatement(toks: seq<Token>)
    requires AllFit(toks, "")
    ensures !ManyStatements(Text(toks))
  {
    TokensPass(toks, "");
    assert Text(toks) + "" == Text(toks);
  }

  lemma {:induction false} NoBlockShift(b: string, s: nat, i: nat)
    requires s <= i <= |b|
    ensures NoBlockComment(b, i) <==> NoBlockComment(b[s..], i - s)
    decreases |b| - i
  {
    if i < |b| && b[i] != ';' {
      TokenShift(b, s, i);
      NoBlockShift(b, s, TokenEnd(b, i));
    }
  }

  predicate NoBlock(tok: Token) { !(tok.Note? && tok.piece.Block?) }

  lemma NoBlockPassed(tok: Token, rest: string)
    requires Fits(tok, rest) && NoBlock(tok)
    ensures var head := TokenText(tok); NoBlockComment(head + rest, 0) <==> NoBlockComment(head + rest, |head|)
  {
    match tok {
      case Plain(c) => PlainPassed(c, rest);
      case Quoted(q, text) => QuotedPassed(q, text, rest);
      case Note(Blank(c)) => assert ([c] + rest)[0] == c && TokenEnd([c] + rest, 0) == 1;
      case Note(Line(text)) => LinePassed(text, rest);
    }
  }

  /** A head that holds no block comment. */
  predicate BlockFree(head: string, tail: string) { NoBlockComment(head + tail, 0) <==> NoBlockComment(tail, 0) }

  lemma DropBlockFree(b: string, s: nat)
    requires s <= |b| && (NoBlockComment(b, 0) <==> NoBlockComment(b, s))
    ensures NoBlockComment(b, 0) <==> NoBlockComment(b[s..], 0)
  {
    NoBlockShift(b, s, s);
  }

  lemma TokenBlockFree(tok: Token, rest: string)
    requires Fits(tok, rest) && NoBlock(tok)
    ensures BlockFree(TokenText(tok), rest)
  {
    var head := TokenText(tok);
    NoBlockPassed(tok, rest);
    DropBlockFree(head + rest, |head|);
    assert (head + rest)[|head|..] == rest;
  }

  lemma BothBlockFree(a: string, b: string, rest: string)
    requires BlockFree(a, b + rest) && BlockFree(b, rest)
    ensures BlockFree(a + b, rest)
  {
    assert a + b + rest == a + (b + rest);
  }

  lemma {:induction false} TokensBlockFree(toks: seq<Token>, rest: string)
    requires AllFit(toks, rest) && forall i :: 0 <= i < |toks| ==> NoBlock(toks[i])
    ensures BlockFree(Text(toks), rest)
    decreases |toks|
  {
    if toks == [] {
      assert "" + rest == rest;
    } else {
      TokenBlockFree(toks[0], Text(toks[1..]) + rest);
      TokensBlockFree(toks[1..], rest);
      BothBlockFree(TokenText(toks[0]), Text(toks[1..]), rest);
    }
  }

  lemma NoBlockBeforeSemicolon(tail: string)
    ensures NoBlockComment(";" + tail, 0)
  {
  }

  lemma RightOnBlockFree(head: string, tail: string)
    requires BlockFree(head, ";" + tail)
    ensures ScanVerdict(head + (";" + tail)) <==> ManyStatements(head + (";" + tail))
  {
    NoBlockBeforeSemicolon(tail);
    NoBlockCommentIsRight(head + (";" + tail));
  }

  /** So the scan rejects such a text exactly when there is a rest, if its statement holds no block comment. */
  lemma ScanCountsStatements(toks: seq<Token>, pieces: seq<Piece>, rest: string)
    requires AllFit(toks, ";" + (Render(pieces) + rest)) && !TriviaStarts(rest, 0)
    requires forall i :: 0 <= i < |pieces| ==> PieceOk(pieces[i])
    requires forall i :: 0 <= i < |toks| ==> NoBlock(toks[i])
    ensures ScanVerdict(Text(toks) + (";" + (Render(pieces) + rest))) <==> rest != ""
  {
    TokensBlockFree(toks, ";" + (Render(pieces) + rest));
    RightOnBlockFree(Text(toks), Render(pieces) + rest);
    CountsStatements(toks, pieces, rest);
  }

  // ---- result truncation ----

  function Size(sizes: seq<nat>): nat { if sizes == [] then 0 else Size(sizes[..|sizes| - 1]) + sizes[|sizes| - 1] }

  /** The first `n` rows are within the quota; 0 means no limit. */
  predicate Within(sizes: seq<nat>, maxRows: nat, maxBytes: nat, n: nat)
    requires n <= |sizes|
  {
    (maxRows == 0 || n <= maxRows) && (maxBytes == 0 || Size(sizes[..n]) <= maxBytes)
  }

  lemma {:induction false} SizeMonotone(sizes: seq<nat>, m: nat, n: nat)
    requires m <= n <= |sizes|
    ensures Size(sizes[..m]) <= Size(sizes[..n])
    decreases n - m
  {
    if m < n {
      SizeMonotone(sizes, m, n - 1);
      assert sizes[..n][..n - 1] == sizes[..n - 1];
    }
  }

  /** Rows are delivered up to the quota: the longest prefix within it, marked truncated exactly when it is not all
      of them. */
  method CollectRows<Row>(rows: seq<Row>, sizes: seq<nat>, maxRows: nat, maxBytes: nat)
    returns (out: seq<Row>, truncated: bool)
    requires |sizes| == |rows|
    ensures |out| <= |rows| && out == rows[..|out|] && Within(sizes, maxRows, maxBytes, |out|)
    ensures truncated <==> |out| < |rows|
    ensures forall n :: |out| < n <= |rows| ==> !Within(sizes, maxRows, maxBytes, n)
  {
    out, truncated := [], false;
    var totalBytes := 0;
    var i := 0;
    while i < |rows|
      invariant i <= |rows| && out == rows[..i] && (maxBytes > 0 ==> totalBytes == Size(sizes[..i]))
                && Within(sizes, maxRows, maxBytes, i)
      invariant !truncated
    {
      assert sizes[..i + 1][..i] == sizes[..i];
      if maxRows > 0 && |out| >= maxRows {
        truncated := true;
        break;
      }
      if maxBytes > 0 {
        totalBytes := totalBytes + sizes[i];
        if totalBytes > maxBytes {
          truncated := true;
          forall n | i < n <= |rows| ensures !Within(sizes, maxRows, maxBytes, n) { SizeMonotone(sizes, i + 1, n); }
          break;
        }
      }
      out := out + [rows[i]];
      i := i + 1;
    }
  }
}
