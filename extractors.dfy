/** The token extractors of rfc5322.c: get_dot_atom, get_quoted_string,
    get_domain_literal, get_domain and get_local_part.

    Each is specified by a function that gives the 0/1 result, the output pointer,
    the new cursor and the buffer after the routine's writes (`Token`), wrapped in
    `Run` for the inputs on which the C loop never ends or reads past the array.
    The three routines that begin with skip_CFWS are split at that call: `DotAtom`,
    `QuotedString` and `DomainLiteral` run `Cfws` and hand its end to `AtomAt`,
    `QuotedAt` and `LiteralAt`, which do the rest.  The output pointer is
    significant only when the result is 1; the methods promise nothing about it
    otherwise, as rfc5322.h says. */
module Extractors {
  import opened Chars
  import opened Skippers

  datatype Token = Token(found: bool, out: nat, pos: nat, buf: seq<Byte>)

  /** A failing extractor hands back the cursor and the buffer it was given. */
  function NoToken(buf: seq<Byte>, i: nat): Token {
    Token(false, i, i, buf)
  }

  /** What every get_ routine but get_addr_spec guarantees: the cursor never moves
      back, a match starts at or after the cursor and the cursor lands at or after
      its start, the buffer keeps its length and its final NUL, and a failure
      changes neither the cursor nor the buffer. */
  ghost predicate WellPlaced(buf: seq<Byte>, i: nat, t: Token) {
    && |t.buf| == |buf| && Terminated(t.buf) && i <= t.pos < |buf|
    && (t.found ==> i <= t.out <= t.pos)
    && (!t.found ==> t.pos == i && t.buf == buf)
  }

  // ---------------------------------------------------------------- dot-atom

  predicate AtomByte(c: Byte) {
    IsAtext(c) || c == DOT
  }

  /** The loop of get_dot_atom: a run of atext and '.', ".." and a final '.' included. */
  function AtomRun(buf: seq<Byte>, j: nat): (r: nat)
    requires Terminated(buf) && j < |buf|
    ensures j <= r < |buf|
    decreases |buf| - j
  {
    if buf[j] != NUL && AtomByte(buf[j]) then AtomRun(buf, j + 1) else j
  }

  /** The run is maximal: atext and '.' up to its end, neither at it. */
  lemma {:induction false} AtomRunSpan(buf: seq<Byte>, j: nat)
    requires Terminated(buf) && j < |buf|
    ensures forall k :: j <= k < AtomRun(buf, j) ==> AtomByte(buf[k])
    ensures !AtomByte(buf[AtomRun(buf, j)])
    decreases |buf| - j
  {
    if buf[j] != NUL && AtomByte(buf[j]) {
      AtomRunSpan(buf, j + 1);
    }
  }

  /** get_dot_atom after its skip_CFWS, which ended at c: one atext, then the run. */
  function AtomAt(buf: seq<Byte>, i: nat, c: nat): (t: Token)
    requires Terminated(buf) && i <= c < |buf|
    ensures WellPlaced(buf, i, t) && t.buf == buf
    ensures t.found <==> IsAtext(buf[c])
    ensures t.found ==> t.out == c < t.pos
  {
    if !IsAtext(buf[c]) then Token(false, c, i, buf)
    else Token(true, c, AtomRun(buf, c + 1), buf)
  }

  /** get_dot_atom. */
  function DotAtom(buf: seq<Byte>, i: nat): (r: Run<Token>)
    requires Terminated(buf) && i < |buf|
    ensures r.Halts? <==> Cfws(buf, i).Halts?
    ensures r.Halts? ==> WellPlaced(buf, i, r.value) && r.value.buf == buf
  {
    var c :- Cfws(buf, i);
    Halts(AtomAt(buf, i, c.pos))
  }

  /** A dot-atom is found exactly when an atext follows the CFWS; the match is the
      maximal run of atext and '.' that starts there, and the buffer is not written. */
  lemma DotAtomSpan(buf: seq<Byte>, i: nat)
    requires Terminated(buf) && i < |buf| && DotAtom(buf, i).Halts?
    ensures var c := Cfws(buf, i).value.pos; var t := DotAtom(buf, i).value;
            && (t.found <==> IsAtext(buf[c]))
            && (t.found ==>
                  && t.out == c < t.pos
                  && (forall k :: t.out <= k < t.pos ==> AtomByte(buf[k]))
                  && !AtomByte(buf[t.pos]))
  {
    var c := Cfws(buf, i).value.pos;
    if IsAtext(buf[c]) {
      AtomRunSpan(buf, c + 1);
    }
  }

  // ---------------------------------------------------------------- quoted-string

  function QtextRun(buf: seq<Byte>, j: nat): (r: nat)
    requires Terminated(buf) && j < |buf|
    ensures j <= r < |buf|
    decreases |buf| - j
  {
    if IsQtext(buf[j]) then QtextRun(buf, j + 1) else j
  }

  /** The loop of get_quoted_string: FWS, a qtext run and a quoted-pair per round,
      until a NUL or '"'; a round that advances nothing repeats forever. */
  function QuotedBody(buf: seq<Byte>, s: nat): (r: Run<nat>)
    requires Terminated(buf) && s < |buf|
    ensures r.Halts? ==> s <= r.value < |buf|
    decreases |buf| - s
  {
    if buf[s] == NUL || buf[s] == DQUOTE then Halts(s)
    else
      var k := Fws(buf, s).pos;
      var q := QtextRun(buf, k);
      var p :- QuotedPair(buf, q);
      if p.pos == s then Stuck else QuotedBody(buf, p.pos)
  }

  /** The loop stops only on a NUL or a '"'. */
  lemma {:induction false} QuotedBodyEnd(buf: seq<Byte>, s: nat)
    requires Terminated(buf) && s < |buf| && QuotedBody(buf, s).Halts?
    ensures buf[QuotedBody(buf, s).value] == NUL || buf[QuotedBody(buf, s).value] == DQUOTE
    decreases |buf| - s
  {
    if buf[s] != NUL && buf[s] != DQUOTE {
      var p := QuotedPair(buf, QtextRun(buf, Fws(buf, s).pos)).value;
      QuotedBodyEnd(buf, p.pos);
    }
  }

  /** One round of the loop, on an input on which the loop ends: it advances, and
      the rest of the loop runs from where the round stopped. */
  lemma QuotedBodyStep(buf: seq<Byte>, s: nat)
    requires Terminated(buf) && s < |buf| && buf[s] != NUL && buf[s] != DQUOTE
    requires QuotedBody(buf, s).Halts?
    ensures var q := QtextRun(buf, Fws(buf, s).pos);
            && QuotedPair(buf, q).Halts? && QuotedPair(buf, q).value.pos != s
            && QuotedBody(buf, QuotedPair(buf, q).value.pos) == QuotedBody(buf, s)
  {
  }

  /** The loop of get_quoted_string never ends on a byte that starts no FWS and
      is neither qtext, a NUL, '"' nor a consumable quoted-pair: a lone CR or LF,
      a byte of 128 or more, or a backslash before a byte no branch accepts. */
  lemma QuotedBodyStuckOnByte(buf: seq<Byte>, s: nat)
    requires Terminated(buf) && s < |buf| && buf[s] != NUL && buf[s] != DQUOTE
    requires FwsStop(buf, s) && !IsQtext(buf[s])
    requires buf[s] == BACKSLASH ==> !StandardPairByte(buf[s + 1]) && !ObsPairByte(buf[s + 1])
    ensures QuotedBody(buf, s) == Stuck
  {
    assert WspRun(buf, s) == s;
    assert FoldRun(buf, s) == s;
    assert QtextRun(buf, s) == s;
    assert QuotedPair(buf, s) == Halts(Skip(false, s));
  }

  /** get_quoted_string after its skip_CFWS, which ended at c: on success the
      output is the opening quote, the byte after the closing quote becomes NUL and
      the cursor is left on that NUL. */
  function QuotedAt(buf: seq<Byte>, i: nat, c: nat): (r: Run<Token>)
    requires Terminated(buf) && i <= c < |buf|
    ensures r.Halts? ==> WellPlaced(buf, i, r.value)
  {
    if buf[c] != DQUOTE then Halts(NoToken(buf, i))
    else
      var e :- QuotedBody(buf, c + 1);
      if buf[e] == DQUOTE then Halts(Token(true, c, e + 1, buf[e + 1 := NUL]))
      else Halts(NoToken(buf, i))
  }

  /** get_quoted_string. */
  function QuotedString(buf: seq<Byte>, i: nat): (r: Run<Token>)
    requires Terminated(buf) && i < |buf|
    ensures r.Halts? ==> WellPlaced(buf, i, r.value)
  {
    var c :- Cfws(buf, i);
    QuotedAt(buf, i, c.pos)
  }

  lemma QuotedAfterCfws(buf: seq<Byte>, i: nat, cf: Skip)
    requires Terminated(buf) && i < |buf| && Cfws(buf, i) == Halts(cf)
    ensures QuotedString(buf, i) == QuotedAt(buf, i, cf.pos)
  {
  }

  lemma QuotedAtUnfold(buf: seq<Byte>, i: nat, c: nat, e: nat)
    requires Terminated(buf) && i <= c < |buf| && buf[c] == DQUOTE
    requires QuotedBody(buf, c + 1) == Halts(e)
    ensures QuotedAt(buf, i, c) ==
              if buf[e] == DQUOTE then Halts(Token(true, c, e + 1, buf[e + 1 := NUL]))
              else Halts(NoToken(buf, i))
  {
  }

  /** A quoted-string matched at c: c holds the opening quote, the loop from c+1
      stops on the closing quote e, the cursor is left at e+1 and exactly that byte
      becomes NUL. */
  lemma QuotedAtMatch(buf: seq<Byte>, i: nat, c: nat, t: Token)
    requires Terminated(buf) && i <= c < |buf|
    requires QuotedAt(buf, i, c) == Halts(t) && t.found
    ensures t.out == c && buf[c] == DQUOTE && QuotedBody(buf, c + 1).Halts?
    ensures var e := QuotedBody(buf, c + 1).value;
            buf[e] == DQUOTE && t.pos == e + 1 && t.buf == buf[e + 1 := NUL]
  {
    var e := QuotedBody(buf, c + 1).value;
    QuotedAtUnfold(buf, i, c, e);
  }

  /** A matched quoted-string starts with the quote that follows the CFWS and ends
      one past the closing quote, which the loop stopped on; exactly the byte after
      it becomes NUL and the cursor is left on that NUL. */
  lemma QuotedStringMatch(buf: seq<Byte>, i: nat, t: Token)
    requires Terminated(buf) && i < |buf|
    requires QuotedString(buf, i) == Halts(t) && t.found
    ensures Cfws(buf, i).Halts?
    ensures var c := Cfws(buf, i).value.pos;
            && t.out == c && buf[c] == DQUOTE && QuotedBody(buf, c + 1).Halts?
            && var e := QuotedBody(buf, c + 1).value;
               buf[e] == DQUOTE && t.pos == e + 1 && t.buf == buf[e + 1 := NUL]
  {
    assert Cfws(buf, i).Halts?;
    var cf := Cfws(buf, i).value;
    QuotedAfterCfws(buf, i, cf);
    QuotedAtMatch(buf, i, cf.pos, t);
  }

  /** What get_quoted_string lets stand between its quotes: WSP, CR LF, qtext, a
      two-byte quoted-pair, and the four bytes taken when the obsolete branch of
      skip_quoted_pair fires right after the standard one (the third of them is
      any byte, a '"' or a NUL included). */
  ghost predicate QuotedUnits(buf: seq<Byte>, s: nat, e: nat)
    requires s <= e <= |buf|
    decreases e - s
  {
    s == e
    || ((IsWsp(buf[s]) || IsQtext(buf[s])) && QuotedUnits(buf, s + 1, e))
    || (s + 1 < e && buf[s] == CR && buf[s + 1] == LF && QuotedUnits(buf, s + 2, e))
    || (s + 1 < e && buf[s] == BACKSLASH && (StandardPairByte(buf[s + 1]) || ObsPairByte(buf[s + 1]))
        && QuotedUnits(buf, s + 2, e))
    || (s + 3 < e && buf[s] == BACKSLASH && StandardPairByte(buf[s + 1]) && ObsPairByte(buf[s + 3])
        && QuotedUnits(buf, s + 4, e))
  }

  lemma {:induction false} FoldingUnitsAreQuotedUnits(buf: seq<Byte>, s: nat, k: nat, e: nat)
    requires s <= k <= e <= |buf|
    requires FoldingUnits(buf, s, k) && QuotedUnits(buf, k, e)
    ensures QuotedUnits(buf, s, e)
    decreases k - s
  {
    if s < k {
      if IsWsp(buf[s]) {
        FoldingUnitsAreQuotedUnits(buf, s + 1, k, e);
      } else {
        FoldingUnitsAreQuotedUnits(buf, s + 2, k, e);
      }
    }
  }

  lemma {:induction false} QtextRunIsQuotedUnits(buf: seq<Byte>, k: nat, e: nat)
    requires Terminated(buf) && k < |buf| && QtextRun(buf, k) <= e <= |buf|
    requires QuotedUnits(buf, QtextRun(buf, k), e)
    ensures QuotedUnits(buf, k, e)
    decreases |buf| - k
  {
    if IsQtext(buf[k]) {
      QtextRunIsQuotedUnits(buf, k + 1, e);
    }
  }

  lemma {:induction false} QuotedBodyUnits(buf: seq<Byte>, s: nat, e: nat)
    requires Terminated(buf) && s < |buf|
    requires QuotedBody(buf, s) == Halts(e)
    ensures e <= |buf| && QuotedUnits(buf, s, e)
    decreases |buf| - s
  {
    if buf[s] != NUL && buf[s] != DQUOTE {
      var k := Fws(buf, s).pos;
      var q := QtextRun(buf, k);
      var p := QuotedPair(buf, q).value;
      QuotedBodyUnits(buf, p.pos, e);
      QuotedPairCases(buf, q);
      if p.moved {
        assert QuotedUnits(buf, q, e);
      }
      QtextRunIsQuotedUnits(buf, k, e);
      FwsIsMaximalRun(buf, s);
      FoldingUnitsAreQuotedUnits(buf, s, k, e);
    }
  }

  /** Between the quotes of a quoted-string matched at c, the opening one at c and
      the closing one where the loop stopped, there are only quoted units (with
      QuotedAfterCfws, this is what get_quoted_string accepts). */
  lemma QuotedAtContents(buf: seq<Byte>, i: nat, c: nat, t: Token)
    requires Terminated(buf) && i <= c < |buf|
    requires QuotedAt(buf, i, c) == Halts(t) && t.found
    ensures t.out == c && QuotedBody(buf, c + 1).Halts?
    ensures QuotedUnits(buf, c + 1, QuotedBody(buf, c + 1).value)
  {
    QuotedAtMatch(buf, i, c, t);
    QuotedBodyUnits(buf, c + 1, QuotedBody(buf, c + 1).value);
  }

  // ---------------------------------------------------------------- domain-literal

  /** The second loop of get_domain_literal: FWS and at most one dtext per round,
      until ']' or a NUL; a round that advances nothing repeats forever. */
  function DtextBody(buf: seq<Byte>, s: nat): (r: Run<nat>)
    requires Terminated(buf) && s < |buf|
    ensures r.Halts? ==> s <= r.value < |buf|
    decreases |buf| - s
  {
    if buf[s] == NUL then Halts(s)
    else
      var k := Fws(buf, s).pos;
      var d := if IsDtext(buf[k]) then k + 1 else k;
      if buf[d] == RBRACKET then Halts(d)
      else if d == s then Stuck
      else DtextBody(buf, d)
  }

  /** The loop stops only on a NUL or a ']'. */
  lemma {:induction false} DtextBodyEnd(buf: seq<Byte>, s: nat)
    requires Terminated(buf) && s < |buf| && DtextBody(buf, s).Halts?
    ensures buf[DtextBody(buf, s).value] == NUL || buf[DtextBody(buf, s).value] == RBRACKET
    decreases |buf| - s
  {
    if buf[s] != NUL {
      var k := Fws(buf, s).pos;
      var d := if IsDtext(buf[k]) then k + 1 else k;
      if buf[d] != RBRACKET {
        DtextBodyEnd(buf, d);
      }
    }
  }

  /** The dtext loop never ends on a byte that starts no FWS and is neither
      dtext, a NUL nor ']': a backslash, a '[', a lone CR or LF, a byte of 128
      or more. */
  lemma DtextBodyStuckOnByte(buf: seq<Byte>, s: nat)
    requires Terminated(buf) && s < |buf| && buf[s] != NUL && buf[s] != RBRACKET
    requires FwsStop(buf, s) && !IsDtext(buf[s])
    ensures DtextBody(buf, s) == Stuck
  {
    assert WspRun(buf, s) == s;
    assert FoldRun(buf, s) == s;
  }

  /** get_domain_literal after its skip_CFWS, which ended at c.  After '[' a
      do-while repeats skip_FWS until it moves or meets a NUL, so it never ends
      when the byte after '[' starts no FWS and is not a NUL.  On success ']'
      becomes NUL, the cursor is left on it and the output is the first byte after
      '[' and its FWS. */
  function LiteralAt(buf: seq<Byte>, i: nat, c: nat): (r: Run<Token>)
    requires Terminated(buf) && i <= c < |buf|
    ensures r.Halts? ==> WellPlaced(buf, i, r.value)
  {
    if buf[c] != LBRACKET then Halts(NoToken(buf, i))
    else
      var f := Fws(buf, c + 1);
      if !f.moved && buf[c + 1] != NUL then Stuck
      else
        var e :- DtextBody(buf, f.pos);
        if buf[e] != RBRACKET then Halts(NoToken(buf, i))
        else Halts(Token(true, f.pos, e, buf[e := NUL]))
  }

  /** get_domain_literal. */
  function DomainLiteral(buf: seq<Byte>, i: nat): (r: Run<Token>)
    requires Terminated(buf) && i < |buf|
    ensures r.Halts? ==> WellPlaced(buf, i, r.value)
  {
    var c :- Cfws(buf, i);
    LiteralAt(buf, i, c.pos)
  }

  lemma LiteralAfterCfws(buf: seq<Byte>, i: nat, cf: Skip)
    requires Terminated(buf) && i < |buf| && Cfws(buf, i) == Halts(cf)
    ensures DomainLiteral(buf, i) == LiteralAt(buf, i, cf.pos)
  {
  }

  lemma LiteralAtUnfold(buf: seq<Byte>, i: nat, c: nat, f: nat, e: nat)
    requires Terminated(buf) && i <= c < |buf| && buf[c] == LBRACKET
    requires Fws(buf, c + 1).pos == f && (Fws(buf, c + 1).moved || buf[c + 1] == NUL)
    requires DtextBody(buf, f) == Halts(e)
    ensures LiteralAt(buf, i, c) ==
              if buf[e] == RBRACKET then Halts(Token(true, f, e, buf[e := NUL]))
              else Halts(NoToken(buf, i))
  {
  }

  /** A matched domain-literal: '[' follows the CFWS, FWS follows the '[' (a literal
      without it is never matched), the output is the end of that FWS, ']' is
      overwritten by NUL and the cursor is left on it. */
  lemma LiteralAtMatch(buf: seq<Byte>, i: nat, c: nat, t: Token)
    requires Terminated(buf) && i <= c < |buf|
    requires LiteralAt(buf, i, c) == Halts(t) && t.found
    ensures buf[c] == LBRACKET && Fws(buf, c + 1).moved && t.out == Fws(buf, c + 1).pos
    ensures t.out <= t.pos < |buf|
    ensures DtextBody(buf, t.out) == Halts(t.pos)
    ensures buf[t.pos] == RBRACKET && t.buf == buf[t.pos := NUL]
  {
    var f := Fws(buf, c + 1).pos;
    if buf[c + 1] == NUL {
      assert f == c + 1;
      assert DtextBody(buf, f) == Halts(f);
    }
    LiteralAtUnfold(buf, i, c, f, DtextBody(buf, f).value);
  }

  lemma DomainLiteralMatch(buf: seq<Byte>, i: nat, t: Token)
    requires Terminated(buf) && i < |buf|
    requires DomainLiteral(buf, i) == Halts(t) && t.found
    ensures Cfws(buf, i).Halts?
    ensures var c := Cfws(buf, i).value.pos;
            buf[c] == LBRACKET && Fws(buf, c + 1).moved && t.out == Fws(buf, c + 1).pos
    ensures t.out <= t.pos < |buf|
    ensures DtextBody(buf, t.out) == Halts(t.pos)
    ensures buf[t.pos] == RBRACKET && t.buf == buf[t.pos := NUL]
  {
    assert Cfws(buf, i).Halts?;
    var cf := Cfws(buf, i).value;
    LiteralAfterCfws(buf, i, cf);
    LiteralAtMatch(buf, i, cf.pos, t);
  }

  /** What get_domain_literal lets stand between '[' and ']': WSP, CR LF and dtext. */
  ghost predicate LiteralUnits(buf: seq<Byte>, s: nat, e: nat)
    requires s <= e <= |buf|
    decreases e - s
  {
    s == e
    || ((IsWsp(buf[s]) || IsDtext(buf[s])) && LiteralUnits(buf, s + 1, e))
    || (s + 1 < e && buf[s] == CR && buf[s + 1] == LF && LiteralUnits(buf, s + 2, e))
  }

  lemma {:induction false} FoldingUnitsAreLiteralUnits(buf: seq<Byte>, s: nat, k: nat, e: nat)
    requires s <= k <= e <= |buf|
    requires FoldingUnits(buf, s, k) && LiteralUnits(buf, k, e)
    ensures LiteralUnits(buf, s, e)
    decreases k - s
  {
    if s < k {
      if IsWsp(buf[s]) {
        FoldingUnitsAreLiteralUnits(buf, s + 1, k, e);
      } else {
        FoldingUnitsAreLiteralUnits(buf, s + 2, k, e);
      }
    }
  }

  lemma {:induction false} DtextBodyUnits(buf: seq<Byte>, s: nat, e: nat)
    requires Terminated(buf) && s < |buf|
    requires DtextBody(buf, s) == Halts(e)
    ensures e <= |buf| && LiteralUnits(buf, s, e)
    decreases |buf| - s
  {
    if buf[s] != NUL {
      var k := Fws(buf, s).pos;
      var d := if IsDtext(buf[k]) then k + 1 else k;
      if buf[d] != RBRACKET {
        DtextBodyUnits(buf, d, e);
      }
      assert LiteralUnits(buf, k, e);
      FwsIsMaximalRun(buf, s);
      FoldingUnitsAreLiteralUnits(buf, s, k, e);
    }
  }

  /** The text a matched domain-literal hands back consists of FWS units and dtext:
      no quoted-pair is accepted inside the brackets. */
  lemma DomainLiteralContents(buf: seq<Byte>, i: nat, t: Token)
    requires Terminated(buf) && i < |buf|
    requires DomainLiteral(buf, i) == Halts(t) && t.found
    ensures t.out <= t.pos <= |buf| && LiteralUnits(buf, t.out, t.pos)
  {
    DomainLiteralMatch(buf, i, t);
    DtextBodyUnits(buf, t.out, t.pos);
  }

  /** The do-while after '[' never ends unless FWS or a NUL follows the '[':
      "[1.2.3.4]" is never parsed. */
  lemma DomainLiteralStuckWithoutFws(buf: seq<Byte>, i: nat)
    requires Terminated(buf) && i < |buf| && Cfws(buf, i).Halts?
    requires buf[Cfws(buf, i).value.pos] == LBRACKET
    requires var o := Cfws(buf, i).value.pos + 1; !Fws(buf, o).moved && buf[o] != NUL
    ensures DomainLiteral(buf, i) == Stuck
  {
    var cf := Cfws(buf, i).value;
    LiteralAfterCfws(buf, i, cf);
  }

  /** Where FWS has already been skipped, the dtext loop either stops at once or
      starts on a dtext byte. */
  lemma DtextBodyStart(buf: seq<Byte>, s: nat, e: nat)
    requires Terminated(buf) && s < |buf| && Fws(buf, s) == Skip(false, s)
    requires DtextBody(buf, s) == Halts(e)
    ensures s == e || IsDtext(buf[s])
  {
  }

  /** The text a matched domain-literal hands back starts with a dtext byte or is
      empty (its first byte is the NUL written over ']'); never with '['. */
  lemma DomainLiteralStart(buf: seq<Byte>, i: nat, t: Token)
    requires Terminated(buf) && i < |buf|
    requires DomainLiteral(buf, i) == Halts(t) && t.found
    ensures i < t.out <= t.pos
    ensures t.buf[t.out] == NUL || IsDtext(t.buf[t.out])
    ensures t.buf[t.out] != LBRACKET
    ensures Cfws(buf, i).Halts? && buf[Cfws(buf, i).value.pos] == LBRACKET
    ensures t.pos + 1 < |buf|
  {
    DomainLiteralMatch(buf, i, t);
    var c := Cfws(buf, i).value.pos;
    FwsIdempotent(buf, c + 1);
    DtextBodyStart(buf, t.out, t.pos);
  }

  // ---------------------------------------------------------------- domain, local-part

  /** get_domain: a domain-literal, whose cursor is stepped past the written NUL,
      or else a dot-atom from the original cursor. */
  function Domain(buf: seq<Byte>, i: nat): (r: Run<Token>)
    requires Terminated(buf) && i < |buf|
    ensures r.Halts? ==> WellPlaced(buf, i, r.value)
  {
    var l :- DomainLiteral(buf, i);
    if l.found then Halts(Token(true, l.out, l.pos + 1, l.buf))
    else DotAtom(buf, i)
  }

  /** get_domain tries the literal first and falls back to a dot-atom on the
      untouched buffer; a literal's cursor ends one past its NUL. */
  lemma DomainAlternatives(buf: seq<Byte>, i: nat)
    requires Terminated(buf) && i < |buf| && Domain(buf, i).Halts?
    ensures DomainLiteral(buf, i).Halts?
    ensures var l := DomainLiteral(buf, i).value;
            if l.found then Domain(buf, i) == Halts(Token(true, l.out, l.pos + 1, l.buf))
            else Domain(buf, i) == DotAtom(buf, i)
  {
  }

  /** A matched domain-literal is get_domain's result, its cursor one past the NUL. */
  lemma DomainOfLiteral(buf: seq<Byte>, i: nat, l: Token)
    requires Terminated(buf) && i < |buf|
    requires DomainLiteral(buf, i) == Halts(l) && l.found
    ensures Domain(buf, i) == Halts(Token(true, l.out, l.pos + 1, l.buf))
  {
  }

  /** Where an atext stands at the cursor, get_domain finds the dot-atom that
      starts there and writes nothing. */
  lemma DomainOfDotAtom(buf: seq<Byte>, p: nat)
    requires Terminated(buf) && p < |buf| && IsAtext(buf[p])
    ensures Domain(buf, p) == Halts(Token(true, p, AtomRun(buf, p + 1), buf))
  {
    AtextIsNoDelimiter(buf[p]);
    CfwsStaysPut(buf, p);
    LiteralAfterCfws(buf, p, Skip(false, p));
    assert DomainLiteral(buf, p) == Halts(NoToken(buf, p));
    assert DotAtom(buf, p) == Halts(AtomAt(buf, p, p));
  }

  /** The run of atext and '.' depends only on the bytes it covers and the byte
      that stops it: the same bytes at k give the same length. */
  lemma {:induction false} AtomRunShifted(b: seq<Byte>, m: seq<Byte>, j: nat, k: nat)
    requires Terminated(b) && Terminated(m) && j < |b| && k + (AtomRun(b, j) - j) < |m|
    requires forall q :: j <= q <= AtomRun(b, j) ==> m[k + (q - j)] == b[q]
    ensures AtomRun(m, k) == k + (AtomRun(b, j) - j)
    decreases |b| - j
  {
    assert m[k + (j - j)] == b[j];
    if b[j] != NUL && AtomByte(b[j]) {
      forall q | j + 1 <= q <= AtomRun(b, j + 1)
        ensures m[k + 1 + (q - (j + 1))] == b[q]
      {
        assert m[k + (q - j)] == b[q];
      }
      AtomRunShifted(b, m, j + 1, k + 1);
    }
  }

  /** A run of atext and '.' that another buffer repeats, stopped there by a
      byte that is neither, has the same end. */
  lemma {:induction false} AtomRunUpTo(b: seq<Byte>, m: seq<Byte>, j: nat, e: nat)
    requires Terminated(b) && Terminated(m) && j < |b| && e < |m|
    requires AtomRun(b, j) == e && (m[e] == NUL || !AtomByte(m[e]))
    requires forall q :: j <= q < e ==> m[q] == b[q]
    ensures AtomRun(m, j) == e
    decreases e - j
  {
    if j < e {
      assert m[j] == b[j];
      AtomRunUpTo(b, m, j + 1, e);
    }
  }

  /** Without a '[' from the cursor on, get_domain_literal finds nothing and
      get_domain is get_dot_atom. */
  lemma DomainWithoutBracket(buf: seq<Byte>, i: nat)
    requires Terminated(buf) && i < |buf|
    requires forall k :: i <= k < |buf| ==> buf[k] != LBRACKET
    ensures Domain(buf, i) == DotAtom(buf, i)
  {
    var cf := Cfws(buf, i);
    if cf.Halts? {
      LiteralAfterCfws(buf, i, cf.value);
      assert buf[cf.value.pos] != LBRACKET;
      assert DomainLiteral(buf, i) == Halts(NoToken(buf, i));
    }
  }

  /** get_domain writes nothing at or before its starting cursor. */
  lemma DomainKeepsStart(buf: seq<Byte>, i: nat, t: Token)
    requires Terminated(buf) && i < |buf| && Domain(buf, i) == Halts(t)
    ensures t.buf[..i + 1] == buf[..i + 1]
  {
    DomainAlternatives(buf, i);
    var l := DomainLiteral(buf, i).value;
    if l.found {
      DomainLiteralStart(buf, i, l);
      DomainLiteralMatch(buf, i, l);
    }
  }

  /** get_local_part: a quoted-string, or else a dot-atom from the original cursor. */
  function LocalPart(buf: seq<Byte>, i: nat): (r: Run<Token>)
    requires Terminated(buf) && i < |buf|
    ensures r.Halts? ==> WellPlaced(buf, i, r.value)
  {
    var q :- QuotedString(buf, i);
    if q.found then Halts(q) else DotAtom(buf, i)
  }

  /** get_local_part tries the quoted-string first and falls back to a dot-atom on
      the untouched buffer. */
  lemma LocalPartAlternatives(buf: seq<Byte>, i: nat)
    requires Terminated(buf) && i < |buf| && LocalPart(buf, i).Halts?
    ensures QuotedString(buf, i).Halts?
    ensures if QuotedString(buf, i).value.found then LocalPart(buf, i) == QuotedString(buf, i)
            else LocalPart(buf, i) == DotAtom(buf, i)
  {
  }

  // ---------------------------------------------------------------- the C routines

  method GetDotAtom(a: array<Byte>, i: nat) returns (found: bool, out: nat, j: nat)
    requires Terminated(a[..]) && i < a.Length
    requires DotAtom(a[..], i).Halts?
    ensures var t := DotAtom(a[..], i).value;
            found == t.found && j == t.pos && (found ==> out == t.out)
  {
    var _, s := SkipCfws(a, i);
    assert DotAtom(a[..], i) == Halts(AtomAt(a[..], i, s));
    out := s;
    if !IsAtext(a[s]) {
      return false, out, i;
    }
    s := s + 1;
    while a[s] != NUL
      invariant out < s < a.Length
      invariant AtomRun(a[..], s) == AtomRun(a[..], out + 1)
      decreases a.Length - s
    {
      if IsAtext(a[s]) || a[s] == DOT {
        assert AtomRun(a[..], s) == AtomRun(a[..], s + 1);
        s := s + 1;
      } else {
        assert AtomRun(a[..], s) == s;
        break;
      }
    }
    return true, out, s;
  }

  /** The loop of get_quoted_string, from the byte after the opening quote. */
  method ScanQuotedBody(a: array<Byte>, s0: nat) returns (s: nat)
    requires Terminated(a[..]) && s0 < a.Length
    requires QuotedBody(a[..], s0).Halts?
    ensures QuotedBody(a[..], s0) == Halts(s)
  {
    s := s0;
    while a[s] != NUL && a[s] != DQUOTE
      invariant s0 <= s < a.Length
      invariant QuotedBody(a[..], s) == QuotedBody(a[..], s0)
      decreases a.Length - s
    {
      QuotedBodyStep(a[..], s);
      var _, k := SkipFws(a, s);
      ghost var k0 := k;
      while IsQtext(a[k])
        invariant k0 <= k < a.Length
        invariant QtextRun(a[..], k) == QtextRun(a[..], k0)
        decreases a.Length - k
      {
        k := k + 1;
      }
      var _, p := SkipQuotedPair(a, k);
      s := p;
    }
  }

  /** get_quoted_string from the end of its skip_CFWS up to, not including, its one write. */
  method FindQuoted(a: array<Byte>, i: nat, c: nat) returns (found: bool, e: nat)
    requires Terminated(a[..]) && i <= c < a.Length
    requires QuotedAt(a[..], i, c).Halts?
    ensures var t := QuotedAt(a[..], i, c).value;
            && found == t.found
            && (found ==> t.out == c && e == t.pos && t.buf == a[..][e := NUL])
            && (!found ==> t == NoToken(a[..], i))
  {
    if a[c] != DQUOTE {
      return false, i;
    }
    var s := ScanQuotedBody(a, c + 1);
    QuotedAtUnfold(a[..], i, c, s);
    found := a[s] == DQUOTE;
    e := s + 1;
  }

  method GetQuotedString(a: array<Byte>, i: nat) returns (found: bool, out: nat, j: nat)
    requires Terminated(a[..]) && i < a.Length
    requires QuotedString(a[..], i).Halts?
    modifies a
    ensures var t := QuotedString(old(a[..]), i).value;
            found == t.found && j == t.pos && (found ==> out == t.out) && a[..] == t.buf
  {
    var d, c := SkipCfws(a, i);
    QuotedAfterCfws(a[..], i, Skip(d, c));
    var e;
    found, e := FindQuoted(a, i, c);
    if !found {
      return false, c, i;
    }
    a[e] := NUL;
    return true, c, e;
  }

  /** The second loop of get_domain_literal. */
  method ScanDtextBody(a: array<Byte>, s0: nat) returns (s: nat)
    requires Terminated(a[..]) && s0 < a.Length
    requires DtextBody(a[..], s0).Halts?
    ensures DtextBody(a[..], s0) == Halts(s)
  {
    s := s0;
    while a[s] != NUL
      invariant s0 <= s < a.Length
      invariant DtextBody(a[..], s) == DtextBody(a[..], s0)
      decreases a.Length - s
    {
      var _, k := SkipFws(a, s);
      if IsDtext(a[k]) {
        k := k + 1;
      }
      if a[k] == RBRACKET {
        s := k;
        break;
      }
      s := k;
    }
  }

  /** get_domain_literal from the end of its skip_CFWS up to, not including, its one write. */
  method FindLiteral(a: array<Byte>, i: nat, c: nat) returns (found: bool, out: nat, e: nat)
    requires Terminated(a[..]) && i <= c < a.Length
    requires LiteralAt(a[..], i, c).Halts?
    ensures var t := LiteralAt(a[..], i, c).value;
            && found == t.found
            && (found ==> out == t.out && e == t.pos && t.buf == a[..][e := NUL])
            && (!found ==> t == NoToken(a[..], i))
  {
    if a[c] != LBRACKET {
      return false, c, i;
    }
    var did;
    did, out := SkipFws(a, c + 1);
    if !did && a[c + 1] != NUL {
      // the do-while would repeat the same skip_FWS forever
      assert false;
    }
    e := ScanDtextBody(a, out);
    LiteralAtUnfold(a[..], i, c, out, e);
    found := a[e] == RBRACKET;
  }

  method GetDomainLiteral(a: array<Byte>, i: nat) returns (found: bool, out: nat, j: nat)
    requires Terminated(a[..]) && i < a.Length
    requires DomainLiteral(a[..], i).Halts?
    modifies a
    ensures var t := DomainLiteral(old(a[..]), i).value;
            found == t.found && j == t.pos && (found ==> out == t.out) && a[..] == t.buf
  {
    var d, c := SkipCfws(a, i);
    LiteralAfterCfws(a[..], i, Skip(d, c));
    var e;
    found, out, e := FindLiteral(a, i, c);
    if !found {
      return false, out, i;
    }
    a[e] := NUL;
    return true, out, e;
  }

  method GetDomain(a: array<Byte>, i: nat) returns (found: bool, out: nat, j: nat)
    requires Terminated(a[..]) && i < a.Length
    requires Domain(a[..], i).Halts?
    modifies a
    ensures var t := Domain(old(a[..]), i).value;
            found == t.found && j == t.pos && (found ==> out == t.out) && a[..] == t.buf
  {
    var s;
    found, out, s := GetDomainLiteral(a, i);
    if found {
      return true, out, s + 1;
    }
    found, out, s := GetDotAtom(a, i);
    j := if found then s else i;
  }

  method GetLocalPart(a: array<Byte>, i: nat) returns (found: bool, out: nat, j: nat)
    requires Terminated(a[..]) && i < a.Length
    requires LocalPart(a[..], i).Halts?
    modifies a
    ensures var t := LocalPart(old(a[..]), i).value;
            found == t.found && j == t.pos && (found ==> out == t.out) && a[..] == t.buf
  {
    var s;
    found, out, s := GetQuotedString(a, i);
    if found {
      return true, out, s;
    }
    found, out, s := GetDotAtom(a, i);
    j := if found then s else i;
  }
}
