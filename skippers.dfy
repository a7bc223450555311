/** The read-only layer of rfc5322.c: skip_FWS, skip_quoted_pair, skip_comment,
    skip_ccontent and skip_CFWS.

    The buffer is the C char array the cursor points into; its last cell holds the
    terminating NUL (`Terminated`).  Each C routine is specified by a function over
    the array's contents that says what the C loop does: it halts with the new
    cursor and the returned flag, it never terminates (`Stuck`), or it reads past
    the end of the array (`OverRead`).  The methods over arrays are the C loops
    themselves, proved equal to those functions on every input that halts. */
module Skippers {
  import opened Chars

  /** A C char array whose last cell is the NUL terminator. */
  predicate Terminated(buf: seq<Byte>) {
    |buf| > 0 && buf[|buf| - 1] == NUL
  }

  /** What running a C routine does: it halts with a value, loops forever without
      making progress, or reads a cell beyond the array. */
  datatype Run<+T> = Halts(value: T) | Stuck | OverRead {
    predicate IsFailure() {
      !Halts?
    }

    function PropagateFailure<U>(): Run<U>
      requires !Halts?
    {
      if Stuck? then Stuck else OverRead
    }

    function Extract(): T
      requires Halts?
    {
      value
    }
  }

  /** The 0/1 result of a skip_ routine and where it left the cursor. */
  datatype Skip = Skip(moved: bool, pos: nat)

  // ---------------------------------------------------------------- FWS

  /** The first loop of skip_FWS: a run of WSP. */
  function WspRun(buf: seq<Byte>, i: nat): (j: nat)
    requires Terminated(buf) && i < |buf|
    ensures i <= j < |buf|
    decreases |buf| - i
  {
    if IsWsp(buf[i]) then WspRun(buf, i + 1) else i
  }

  /** The second loop of skip_FWS: each round takes a CR LF pair if there is one,
      then one WSP if there is one. */
  function FoldRun(buf: seq<Byte>, s: nat): (j: nat)
    requires Terminated(buf) && s < |buf|
    ensures s <= j < |buf|
    decreases |buf| - s
  {
    if buf[s] != NUL && ((buf[s] == CR && buf[s + 1] == LF) || IsWsp(buf[s])) then
      var t := if buf[s] == CR && buf[s + 1] == LF then s + 2 else s;
      var u := if IsWsp(buf[t]) then t + 1 else t;
      FoldRun(buf, u)
    else
      s
  }

  /** skip_FWS: the flag is set by either loop advancing. */
  function Fws(buf: seq<Byte>, i: nat): (r: Skip)
    requires Terminated(buf) && i < |buf|
    ensures i <= r.pos < |buf|
    ensures r.moved <==> r.pos > i
  {
    var w := WspRun(buf, i);
    var e := FoldRun(buf, w);
    Skip(w > i || e > w, e)
  }

  /** buf[i..j] is a sequence of the units SP, HTAB and CR LF. */
  ghost predicate FoldingUnits(buf: seq<Byte>, i: nat, j: nat)
    requires i <= j <= |buf|
    decreases j - i
  {
    i == j
    || (IsWsp(buf[i]) && FoldingUnits(buf, i + 1, j))
    || (i + 1 < j && buf[i] == CR && buf[i + 1] == LF && FoldingUnits(buf, i + 2, j))
  }

  /** No unit starts at j: neither a WSP nor a CR LF pair (a lone CR stops FWS). */
  ghost predicate FwsStop(buf: seq<Byte>, j: nat)
    requires j < |buf|
  {
    !IsWsp(buf[j]) && !(buf[j] == CR && j + 1 < |buf| && buf[j + 1] == LF)
  }

  lemma {:induction false} WspRunThenFold(buf: seq<Byte>, i: nat)
    requires Terminated(buf) && i < |buf|
    ensures FoldRun(buf, WspRun(buf, i)) == FoldRun(buf, i)
    decreases |buf| - i
  {
    if IsWsp(buf[i]) {
      WspRunThenFold(buf, i + 1);
    }
  }

  lemma {:induction false} FoldRunIsMaximal(buf: seq<Byte>, s: nat)
    requires Terminated(buf) && s < |buf|
    ensures FoldingUnits(buf, s, FoldRun(buf, s)) && FwsStop(buf, FoldRun(buf, s))
    decreases |buf| - s
  {
    if buf[s] != NUL && ((buf[s] == CR && buf[s + 1] == LF) || IsWsp(buf[s])) {
      var t := if buf[s] == CR && buf[s + 1] == LF then s + 2 else s;
      var u := if IsWsp(buf[t]) then t + 1 else t;
      FoldRunIsMaximal(buf, u);
    }
  }

  lemma {:induction false} FoldRunUnique(buf: seq<Byte>, s: nat, j: nat)
    requires Terminated(buf) && s <= j < |buf|
    requires FoldingUnits(buf, s, j) && FwsStop(buf, j)
    ensures FoldRun(buf, s) == j
    decreases j - s
  {
    if s < j {
      if IsWsp(buf[s]) {
        FoldRunUnique(buf, s + 1, j);
      } else {
        assert buf[s] == CR && buf[s + 1] == LF && FoldingUnits(buf, s + 2, j);
        if IsWsp(buf[s + 2]) {
          assert s + 2 < j;
          FoldRunUnique(buf, s + 3, j);
        } else {
          FoldRunUnique(buf, s + 2, j);
        }
      }
    }
  }

  /** skip_FWS ends exactly at the end of the maximal run of SP, HTAB and CR LF units. */
  lemma FwsIsMaximalRun(buf: seq<Byte>, i: nat)
    requires Terminated(buf) && i < |buf|
    ensures FoldingUnits(buf, i, Fws(buf, i).pos) && FwsStop(buf, Fws(buf, i).pos)
    ensures forall j :: i <= j < |buf| && FoldingUnits(buf, i, j) && FwsStop(buf, j) ==> j == Fws(buf, i).pos
  {
    WspRunThenFold(buf, i);
    FoldRunIsMaximal(buf, i);
    forall j | i <= j < |buf| && FoldingUnits(buf, i, j) && FwsStop(buf, j)
      ensures j == Fws(buf, i).pos
    {
      FoldRunUnique(buf, i, j);
    }
  }

  /** A second skip_FWS at the result returns 0 and does not move. */
  lemma FwsIdempotent(buf: seq<Byte>, i: nat)
    requires Terminated(buf) && i < |buf|
    ensures Fws(buf, Fws(buf, i).pos) == Skip(false, Fws(buf, i).pos)
  {
    var e := Fws(buf, i).pos;
    FwsIsMaximalRun(buf, i);
    assert FoldingUnits(buf, e, e);
    FwsIsMaximalRun(buf, e);
  }

  /** The leniency of skip_FWS: a CR LF is consumed even when no WSP follows it. */
  lemma FwsConsumesBareCrlf(buf: seq<Byte>, i: nat)
    requires Terminated(buf) && i < |buf|
    requires buf[i] == CR && buf[i + 1] == LF
    ensures Fws(buf, i).moved && Fws(buf, i).pos >= i + 2
  {
    WspRunThenFold(buf, i);
  }

  // ---------------------------------------------------------------- quoted-pair

  /** The bytes the standard branch of skip_quoted_pair accepts after '\'. */
  predicate StandardPairByte(c: Byte) {
    IsVchar(c) || IsWsp(c)
  }

  /** The bytes the obsolete branch of skip_quoted_pair accepts after '\'. */
  predicate ObsPairByte(c: Byte) {
    IsObsNoWsCtl(c) || c == CR || c == LF
  }

  /** skip_quoted_pair.  The two branches run one after the other, so once the
      standard branch has consumed "\x" the obsolete branch looks at the byte three
      past the backslash; that read leaves the array when "\x" ends right before the
      final NUL. */
  function QuotedPair(buf: seq<Byte>, i: nat): (r: Run<Skip>)
    requires Terminated(buf) && i < |buf|
    ensures r.Halts? ==> i <= r.value.pos < |buf|
  {
    if buf[i] != BACKSLASH then Halts(Skip(false, i))
    else
      var standard := StandardPairByte(buf[i + 1]);
      var s := if standard then i + 2 else i;
      if s + 1 >= |buf| then OverRead
      else if ObsPairByte(buf[s + 1]) then Halts(Skip(true, s + 2))
      else Halts(Skip(standard, s))
  }

  /** The cases of skip_quoted_pair: it reads past the array exactly when "\x"
      with a standard x ends right before the final NUL; it never loops; it moves
      exactly on a backslash followed by a byte either branch accepts, by two bytes
      or, when the obsolete branch also fires three bytes past the backslash, by four. */
  lemma QuotedPairCases(buf: seq<Byte>, i: nat)
    requires Terminated(buf) && i < |buf|
    ensures var r := QuotedPair(buf, i);
            && (r.OverRead? <==> buf[i] == BACKSLASH && StandardPairByte(buf[i + 1]) && i + 3 == |buf|)
            && !r.Stuck?
            && (r.Halts? ==> (r.value.moved <==> r.value.pos > i))
            && (r.Halts? ==>
                  (r.value.moved <==> buf[i] == BACKSLASH && (StandardPairByte(buf[i + 1]) || ObsPairByte(buf[i + 1]))))
            && (r.Halts? && r.value.moved ==> r.value.pos == i + 2 || r.value.pos == i + 4)
            && (r.Halts? && buf[i] == BACKSLASH && StandardPairByte(buf[i + 1]) ==>
                  i + 3 < |buf| && (r.value.pos == i + 4 <==> ObsPairByte(buf[i + 3])))
  {
  }

  /** A backslash right before a NUL is never consumed. */
  lemma BackslashBeforeNulStays(buf: seq<Byte>, i: nat)
    requires Terminated(buf) && i < |buf|
    requires buf[i] == BACKSLASH && buf[i + 1] == NUL
    ensures QuotedPair(buf, i) == Halts(Skip(false, i))
  {
  }

  // ---------------------------------------------------------------- comments

  /** The loop of skip_comment, from cursor s: it ends at a NUL or just past ')';
      a round in which neither skip_FWS nor skip_ccontent advances repeats forever. */
  function CommentBody(buf: seq<Byte>, s: nat): (r: Run<nat>)
    requires Terminated(buf) && s < |buf|
    ensures r.Halts? ==> s <= r.value < |buf|
    decreases |buf| - s, 2
  {
    if buf[s] == NUL then Halts(s)
    else
      var k := Fws(buf, s).pos;
      if buf[k] == RPAREN then Halts(k + 1)
      else
        var c :- Ccontent(buf, k);
        if c.pos == s then Stuck else CommentBody(buf, c.pos)
  }

  /** skip_ccontent.  On '(' it runs skip_comment on a copy of the cursor and
      returns its flag, but leaves the caller's cursor on the '('. */
  function Ccontent(buf: seq<Byte>, k: nat): (r: Run<Skip>)
    requires Terminated(buf) && k < |buf|
    ensures r.Halts? ==> k <= r.value.pos < |buf|
    decreases |buf| - k, 1
  {
    if IsCtext(buf[k]) then Halts(Skip(true, k + 1))
    else
      var q :- QuotedPair(buf, k);
      if q.moved then Halts(q)
      else if buf[k] == LPAREN then
        var c :- Comment(buf, k);
        Halts(Skip(c.moved, k))
      else Halts(Skip(false, k))
  }

  /** skip_comment: nothing unless the cursor is on '('; otherwise 1, also for an
      unterminated comment. */
  function Comment(buf: seq<Byte>, i: nat): (r: Run<Skip>)
    requires Terminated(buf) && i < |buf|
    ensures r.Halts? ==> i <= r.value.pos < |buf|
    decreases |buf| - i, 0
  {
    if buf[i] != LPAREN then Halts(Skip(false, i))
    else
      var e :- CommentBody(buf, i + 1);
      Halts(Skip(true, e))
  }

  /** skip_ccontent leaves the cursor on a '(' and reports that a comment began there. */
  lemma CcontentOnParen(buf: seq<Byte>, k: nat)
    requires Terminated(buf) && k < |buf| && buf[k] == LPAREN && Ccontent(buf, k).Halts?
    ensures Ccontent(buf, k).value == Skip(true, k)
  {
    QuotedPairCases(buf, k);
  }

  /** skip_comment returns 1 exactly on '(' and then moves past it; otherwise it
      leaves the cursor where it was. */
  lemma CommentCases(buf: seq<Byte>, i: nat)
    requires Terminated(buf) && i < |buf| && Comment(buf, i).Halts?
    ensures Comment(buf, i).value.moved <==> buf[i] == LPAREN
    ensures Comment(buf, i).value.moved ==> Comment(buf, i).value.pos > i
    ensures !Comment(buf, i).value.moved ==> Comment(buf, i).value.pos == i
  {
  }

  /** skip_CFWS: FWS, then at most one comment, then FWS. */
  function Cfws(buf: seq<Byte>, i: nat): (r: Run<Skip>)
    requires Terminated(buf) && i < |buf|
    ensures r.Halts? ==> i <= r.value.pos < |buf|
  {
    var f := Fws(buf, i);
    var c :- Comment(buf, f.pos);
    if c.moved then Halts(Skip(true, Fws(buf, c.pos).pos))
    else Halts(Skip(f.moved, c.pos))
  }

  /** skip_CFWS returns 1 exactly when it moves the cursor. */
  lemma CfwsMovedIffAdvanced(buf: seq<Byte>, i: nat)
    requires Terminated(buf) && i < |buf| && Cfws(buf, i).Halts?
    ensures Cfws(buf, i).value.moved <==> Cfws(buf, i).value.pos > i
  {
    CommentCases(buf, Fws(buf, i).pos);
  }

  /** What skip_comment lets stand inside a comment: WSP, CR LF, ctext, a
      two-byte quoted-pair, and the four bytes taken when the obsolete branch of
      skip_quoted_pair fires right after the standard one. */
  ghost predicate CommentUnits(buf: seq<Byte>, s: nat, e: nat)
    requires s <= e <= |buf|
    decreases e - s
  {
    s == e
    || ((IsWsp(buf[s]) || IsCtext(buf[s])) && CommentUnits(buf, s + 1, e))
    || (s + 1 < e && buf[s] == CR && buf[s + 1] == LF && CommentUnits(buf, s + 2, e))
    || (s + 1 < e && buf[s] == BACKSLASH && (StandardPairByte(buf[s + 1]) || ObsPairByte(buf[s + 1]))
        && CommentUnits(buf, s + 2, e))
    || (s + 3 < e && buf[s] == BACKSLASH && StandardPairByte(buf[s + 1]) && ObsPairByte(buf[s + 3])
        && CommentUnits(buf, s + 4, e))
  }

  lemma {:induction false} FoldingUnitsAreCommentUnits(buf: seq<Byte>, s: nat, k: nat, e: nat)
    requires s <= k <= e <= |buf|
    requires FoldingUnits(buf, s, k) && CommentUnits(buf, k, e)
    ensures CommentUnits(buf, s, e)
    decreases k - s
  {
    if s < k {
      if IsWsp(buf[s]) {
        FoldingUnitsAreCommentUnits(buf, s + 1, k, e);
      } else {
        FoldingUnitsAreCommentUnits(buf, s + 2, k, e);
      }
    }
  }

  /** The bytes one skip_ccontent moves over are one comment unit (or none). */
  lemma CcontentIsCommentUnit(buf: seq<Byte>, k: nat, c: Skip, e: nat)
    requires Terminated(buf) && k < |buf| && Ccontent(buf, k) == Halts(c)
    requires c.pos <= e <= |buf| && CommentUnits(buf, c.pos, e)
    ensures CommentUnits(buf, k, e)
  {
    if !IsCtext(buf[k]) {
      QuotedPairCases(buf, k);
    }
  }

  /** Where the comment loop finishes, it has moved over comment units only, up
      to the NUL or up to the ')' it stopped past. */
  lemma {:induction false} CommentBodyUnits(buf: seq<Byte>, s: nat, e: nat)
    requires Terminated(buf) && s < |buf|
    requires CommentBody(buf, s) == Halts(e)
    ensures (buf[e] == NUL && CommentUnits(buf, s, e))
            || (s < e && buf[e - 1] == RPAREN && CommentUnits(buf, s, e - 1))
    decreases |buf| - s
  {
    if buf[s] != NUL {
      var k := Fws(buf, s).pos;
      FwsIsMaximalRun(buf, s);
      if buf[k] == RPAREN {
        FoldingUnitsAreCommentUnits(buf, s, k, k);
      } else {
        var c := Ccontent(buf, k).value;
        CommentBodyUnits(buf, c.pos, e);
        var last := if buf[e] == NUL && CommentUnits(buf, c.pos, e) then e else e - 1;
        CcontentIsCommentUnit(buf, k, c, last);
        FoldingUnitsAreCommentUnits(buf, s, k, last);
      }
    }
  }

  /** A comment that finishes stops on the NUL or just past a ')', and between
      the '(' and that point stand only comment units. */
  lemma CommentEnd(buf: seq<Byte>, i: nat)
    requires Terminated(buf) && i < |buf|
    requires buf[i] == LPAREN && Comment(buf, i).Halts?
    ensures var e := Comment(buf, i).value.pos;
            || (buf[e] == NUL && CommentUnits(buf, i + 1, e))
            || (e > i + 1 && buf[e - 1] == RPAREN && CommentUnits(buf, i + 1, e - 1))
  {
    CommentBodyUnits(buf, i + 1, Comment(buf, i).value.pos);
  }

  /** Once a round of the comment loop sees '(' after its FWS, the loop never
      finishes: skip_ccontent leaves the cursor on the '(' every time. */
  lemma CommentBodyStuckOnParen(buf: seq<Byte>, s: nat)
    requires Terminated(buf) && s < |buf|
    requires buf[Fws(buf, s).pos] == LPAREN
    ensures !CommentBody(buf, s).Halts?
  {
    var k := Fws(buf, s).pos;
    FwsIdempotent(buf, s);
    if k != s && Ccontent(buf, k).Halts? {
      assert CommentBody(buf, s) == CommentBody(buf, k);
    }
  }

  /** The comment loop never ends either on a byte that starts no FWS and is
      neither ctext, a NUL, ')' nor a consumable quoted-pair. */
  lemma CommentBodyStuckOnByte(buf: seq<Byte>, s: nat)
    requires Terminated(buf) && s < |buf| && buf[s] != NUL && buf[s] != RPAREN && buf[s] != LPAREN
    requires FwsStop(buf, s) && !IsCtext(buf[s])
    requires buf[s] == BACKSLASH ==> !StandardPairByte(buf[s + 1]) && !ObsPairByte(buf[s + 1])
    ensures CommentBody(buf, s) == Stuck
  {
    assert WspRun(buf, s) == s;
    assert FoldRun(buf, s) == s;
    assert QuotedPair(buf, s) == Halts(Skip(false, s));
  }

  /** Hence a comment that opens a nested comment never finishes. */
  lemma NestedCommentNeverFinishes(buf: seq<Byte>, i: nat)
    requires Terminated(buf) && i < |buf|
    requires buf[i] == LPAREN && buf[Fws(buf, i + 1).pos] == LPAREN
    ensures !Comment(buf, i).Halts?
  {
    CommentBodyStuckOnParen(buf, i + 1);
  }

  /** skip_CFWS does consume nothing when called again, unless it stopped on a
      second comment. */
  lemma CfwsIdempotentUnlessParen(buf: seq<Byte>, i: nat)
    requires Terminated(buf) && i < |buf|
    requires Cfws(buf, i).Halts? && buf[Cfws(buf, i).value.pos] != LPAREN
    ensures Cfws(buf, Cfws(buf, i).value.pos) == Halts(Skip(false, Cfws(buf, i).value.pos))
  {
    var f := Fws(buf, i);
    FwsIdempotent(buf, i);
    var c := Comment(buf, f.pos).value;
    if c.moved {
      FwsIdempotent(buf, c.pos);
    }
  }

  /** On a byte that starts neither FWS nor a comment, skip_CFWS returns 0 and
      leaves the cursor where it is. */
  lemma CfwsStaysPut(buf: seq<Byte>, i: nat)
    requires Terminated(buf) && i < |buf|
    requires !IsWsp(buf[i]) && buf[i] != CR && buf[i] != LPAREN
    ensures Cfws(buf, i) == Halts(Skip(false, i))
  {
    assert WspRun(buf, i) == i;
    assert FoldRun(buf, i) == i;
  }

  // ---------------------------------------------------------------- the C routines

  method SkipFws(a: array<Byte>, i: nat) returns (did: bool, j: nat)
    requires Terminated(a[..]) && i < a.Length
    ensures Skip(did, j) == Fws(a[..], i)
  {
    assert a[a.Length - 1] == NUL;
    var s := i;
    did := false;
    while IsWsp(a[s])
      invariant i <= s < a.Length
      invariant WspRun(a[..], s) == WspRun(a[..], i)
      invariant did <==> s > i
      decreases a.Length - s
    {
      s := s + 1;
      did := true;
    }
    ghost var w := s;
    while a[s] != NUL && ((a[s] == CR && a[s + 1] == LF) || IsWsp(a[s]))
      invariant w <= s < a.Length
      invariant FoldRun(a[..], s) == FoldRun(a[..], w)
      invariant did <==> w > i || s > w
      decreases a.Length - s
    {
      did := true;
      if a[s] == CR && a[s + 1] == LF {
        s := s + 2;
      }
      if IsWsp(a[s]) {
        s := s + 1;
      }
    }
    j := s;
  }

  method SkipQuotedPair(a: array<Byte>, i: nat) returns (did: bool, j: nat)
    requires Terminated(a[..]) && i < a.Length
    requires QuotedPair(a[..], i).Halts?
    ensures QuotedPair(a[..], i) == Halts(Skip(did, j))
  {
    assert a[a.Length - 1] == NUL;
    var s := i;
    did := false;
    if a[s] == BACKSLASH {
      if IsVchar(a[s + 1]) || IsWsp(a[s + 1]) {
        s := s + 2;
        did := true;
      }
      if IsObsNoWsCtl(a[s + 1]) || a[s + 1] == CR || a[s + 1] == LF {
        s := s + 2;
        did := true;
      }
    }
    j := s;
  }

  method SkipComment(a: array<Byte>, i: nat) returns (did: bool, j: nat)
    requires Terminated(a[..]) && i < a.Length
    requires Comment(a[..], i).Halts?
    ensures Comment(a[..], i) == Halts(Skip(did, j))
    decreases a.Length - i, 0
  {
    if a[i] != LPAREN {
      return false, i;
    }
    var s := i + 1;
    while a[s] != NUL
      invariant i < s < a.Length
      invariant CommentBody(a[..], s) == CommentBody(a[..], i + 1)
      decreases a.Length - s
    {
      var _, k := SkipFws(a, s);
      if a[k] == RPAREN {
        s := k + 1;
        break;
      }
      var _, c := SkipCcontent(a, k);
      s := c;
    }
    return true, s;
  }

  method SkipCcontent(a: array<Byte>, k: nat) returns (did: bool, j: nat)
    requires Terminated(a[..]) && k < a.Length
    requires Ccontent(a[..], k).Halts?
    ensures Ccontent(a[..], k) == Halts(Skip(did, j))
    decreases a.Length - k, 1
  {
    if IsCtext(a[k]) {
      return true, k + 1;
    }
    var q, s := SkipQuotedPair(a, k);
    if q {
      return true, s;
    }
    if a[k] == LPAREN {
      var c, _ := SkipComment(a, k);
      return c, k;
    }
    return false, k;
  }

  method SkipCfws(a: array<Byte>, i: nat) returns (did: bool, j: nat)
    requires Terminated(a[..]) && i < a.Length
    requires Cfws(a[..], i).Halts?
    ensures Cfws(a[..], i) == Halts(Skip(did, j))
  {
    var s;
    did, s := SkipFws(a, i);
    var c, t := SkipComment(a, s);
    if c {
      did := true;
      var _, u := SkipFws(a, t);
      t := u;
    }
    j := t;
  }
}
