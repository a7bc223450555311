/** get_addr_spec and remove_trailing_CFWS of rfc5322.c.

    get_addr_spec reads a local part, skips CFWS, expects '@' and reads a domain;
    then it writes '@' right after the local part and copies bytes from the start of
    the domain to just after that '@', so that the output reads local@domain, and
    scans the copied domain again for the new cursor.  The copy runs while the
    destination is below the domain's end, so it moves de - e - 1 bytes (e the end
    of the local part, de the end of the domain) and reads past the array when the
    text skipped between the two parts is longer than what follows the domain.
    `AddrSpecWith` models both that copy (clamp = false, `AddrSpec`) and the same
    copy stopped at the end of the array (clamp = true, `AddrSpecClamped`). */
module Assembler {
  import opened Chars
  import opened Skippers
  import opened Extractors

  /** What get_addr_spec guarantees: unlike the other extractors a failure may
      leave the writes of the local part or the domain behind. */
  ghost predicate AddrPlaced(buf: seq<Byte>, i: nat, t: Token) {
    && |t.buf| == |buf| && Terminated(t.buf) && i <= t.pos < |buf|
    && (t.found ==> i <= t.out < t.pos)
    && (!t.found ==> t.pos == i)
  }

  // ---------------------------------------------------------------- the copy

  /** The forward copy of n bytes from src to dst <= src, one byte at a time as
      the loop does it: each step writes b[src] at dst and goes on from the next
      pair of positions in the updated buffer. */
  function Moved(b: seq<Byte>, dst: nat, src: nat, n: nat): (r: seq<Byte>)
    requires dst <= src && src + n <= |b|
    ensures |r| == |b|
    ensures Terminated(b) ==> Terminated(r)
    decreases n
  {
    if n == 0 then b else Moved(b[dst := b[src]], dst + 1, src + 1, n - 1)
  }

  /** Byte k of the copy: inside the window [dst, dst + n) it comes from src on,
      elsewhere it is b's, since the loop never reads a byte it has written. */
  lemma {:induction false} MovedAt(b: seq<Byte>, dst: nat, src: nat, n: nat, k: nat)
    requires dst <= src && src + n <= |b| && k < |b|
    ensures Moved(b, dst, src, n)[k] == (if dst <= k < dst + n then b[src + (k - dst)] else b[k])
    decreases n
  {
    if n > 0 {
      MovedAt(b[dst := b[src]], dst + 1, src + 1, n - 1, k);
    }
  }

  lemma MovedWindow(b: seq<Byte>, dst: nat, src: nat, n: nat)
    requires dst <= src && src + n <= |b|
    ensures forall k {:trigger Moved(b, dst, src, n)[k]} :: 0 <= k < |b| ==>
              Moved(b, dst, src, n)[k] == (if dst <= k < dst + n then b[src + (k - dst)] else b[k])
  {
    forall k | 0 <= k < |b|
      ensures Moved(b, dst, src, n)[k] == (if dst <= k < dst + n then b[src + (k - dst)] else b[k])
    {
      MovedAt(b, dst, src, n, k);
    }
  }

  /** A copy onto itself changes nothing. */
  lemma MovedInPlace(b: seq<Byte>, d: nat, n: nat)
    requires d + n <= |b|
    ensures Moved(b, d, d, n) == b
  {
    MovedWindow(b, d, d, n);
    assert forall k :: 0 <= k < |b| ==> Moved(b, d, d, n)[k] == b[k];
  }

  /** How many bytes the copy moves: as the loop is written, de - e - 1; clamped,
      no more than the array holds from ds. */
  function CopyCount(len: nat, e: nat, ds: nat, de: nat, clamp: bool): (n: nat)
    requires e < ds <= de < len
    ensures n <= de - e - 1 && (!clamp ==> n == de - e - 1)
    ensures n >= de - ds && (clamp ==> ds + n <= len)
  {
    if clamp && ds + (de - e - 1) > len then len - ds else de - e - 1
  }

  /** The copy reaches the byte that ends the domain unless it is already in place. */
  lemma CopyReachesEnd(len: nat, e: nat, ds: nat, de: nat, clamp: bool)
    requires e < ds <= de < len
    ensures CopyCount(len, e, ds, de, clamp) > de - ds || ds == e + 1
  {
  }

  /** The tail of get_addr_spec once the domain [ds, de) is found in b: '@' at e,
      the copy to e + 1, and the second get_domain from e + 1, whose cursor is
      the result (e + 1 when it fails).  The copy reads past the array: OverRead. */
  function Splice(b: seq<Byte>, out: nat, e: nat, ds: nat, de: nat, clamp: bool): (r: Run<Token>)
    requires Terminated(b) && e < ds <= de < |b|
    ensures r.Halts? ==> && r.value.found && r.value.out == out
                         && |r.value.buf| == |b| && Terminated(r.value.buf) && e < r.value.pos < |b|
  {
    var n := CopyCount(|b|, e, ds, de, clamp);
    if ds + n > |b| then OverRead
    else
      var m := Moved(b[e := AT], e + 1, ds, n);
      assert m[|b| - 1] == b[|b| - 1];
      var d :- Domain(m, e + 1);
      Halts(Token(true, out, if d.found then d.pos else e + 1, d.buf))
  }

  // ---------------------------------------------------------------- get_addr_spec

  /** get_addr_spec after '@', found at `at` past the local part ending at e. */
  function AfterAt(b: seq<Byte>, i: nat, out: nat, e: nat, at: nat, clamp: bool): (r: Run<Token>)
    requires Terminated(b) && i <= out <= e <= at < |b| && b[at] == AT
    ensures r.Halts? ==> AddrPlaced(b, i, r.value)
  {
    var d :- Domain(b, at + 1);
    if !d.found then Halts(NoToken(b, i))
    else Splice(d.buf, out, e, d.out, d.pos, clamp)
  }

  /** get_addr_spec after a local part [out, e) that left the buffer b. */
  function AfterLocal(b: seq<Byte>, i: nat, out: nat, e: nat, clamp: bool): (r: Run<Token>)
    requires Terminated(b) && i <= out <= e < |b|
    ensures r.Halts? ==> AddrPlaced(b, i, r.value)
  {
    var c :- Cfws(b, e);
    if b[c.pos] != AT then Halts(NoToken(b, i))
    else AfterAt(b, i, out, e, c.pos, clamp)
  }

  /** get_addr_spec, with the copy as written or clamped to the array. */
  function AddrSpecWith(buf: seq<Byte>, i: nat, clamp: bool): (r: Run<Token>)
    requires Terminated(buf) && i < |buf|
    ensures r.Halts? ==> AddrPlaced(buf, i, r.value)
  {
    var lp :- LocalPart(buf, i);
    if !lp.found then Halts(NoToken(buf, i))
    else AfterLocal(lp.buf, i, lp.out, lp.pos, clamp)
  }

  /** get_addr_spec as written. */
  function AddrSpec(buf: seq<Byte>, i: nat): (r: Run<Token>)
    requires Terminated(buf) && i < |buf|
    ensures r.Halts? ==> AddrPlaced(buf, i, r.value)
  {
    AddrSpecWith(buf, i, false)
  }

  /** get_addr_spec with its copy stopped at the end of the array. */
  function AddrSpecClamped(buf: seq<Byte>, i: nat): (r: Run<Token>)
    requires Terminated(buf) && i < |buf|
    ensures r.Halts? ==> AddrPlaced(buf, i, r.value)
  {
    AddrSpecWith(buf, i, true)
  }

  lemma AddrSpecAfterLocalPart(buf: seq<Byte>, i: nat, clamp: bool, lp: Token)
    requires Terminated(buf) && i < |buf| && LocalPart(buf, i) == Halts(lp)
    ensures AddrSpecWith(buf, i, clamp) ==
              if !lp.found then Halts(NoToken(buf, i))
              else AfterLocal(lp.buf, i, lp.out, lp.pos, clamp)
  {
  }

  lemma AfterLocalCfws(b: seq<Byte>, i: nat, out: nat, e: nat, clamp: bool, cf: Skip)
    requires Terminated(b) && i <= out <= e < |b| && Cfws(b, e) == Halts(cf)
    ensures AfterLocal(b, i, out, e, clamp) ==
              if b[cf.pos] != AT then Halts(NoToken(b, i))
              else AfterAt(b, i, out, e, cf.pos, clamp)
  {
  }

  lemma AfterAtDomain(b: seq<Byte>, i: nat, out: nat, e: nat, at: nat, clamp: bool, d: Token)
    requires Terminated(b) && i <= out <= e <= at < |b| && b[at] == AT
    requires Domain(b, at + 1) == Halts(d)
    ensures AfterAt(b, i, out, e, at, clamp) ==
              if !d.found then Halts(NoToken(b, i))
              else Splice(d.buf, out, e, d.out, d.pos, clamp)
  {
  }

  /** When the tail of get_addr_spec halts, its copy stayed inside the array
      and the second get_domain, on the buffer m after the copy, halted. */
  lemma SpliceCopies(b: seq<Byte>, out: nat, e: nat, ds: nat, de: nat, clamp: bool) returns (m: seq<Byte>)
    requires Terminated(b) && e < ds <= de < |b|
    requires Splice(b, out, e, ds, de, clamp).Halts?
    ensures ds + CopyCount(|b|, e, ds, de, clamp) <= |b|
    ensures m == Moved(b[e := AT], e + 1, ds, CopyCount(|b|, e, ds, de, clamp))
    ensures Terminated(m) && e + 1 < |m| && Domain(m, e + 1).Halts?
  {
    m := Moved(b[e := AT], e + 1, ds, CopyCount(|b|, e, ds, de, clamp));
    assert Terminated(b[e := AT]);
  }

  lemma SpliceRescan(b: seq<Byte>, out: nat, e: nat, ds: nat, de: nat, clamp: bool, d: Token)
    requires Terminated(b) && e < ds <= de < |b|
    requires ds + CopyCount(|b|, e, ds, de, clamp) <= |b|
    requires var m := Moved(b[e := AT], e + 1, ds, CopyCount(|b|, e, ds, de, clamp));
             Terminated(m) && Domain(m, e + 1) == Halts(d)
    ensures Splice(b, out, e, ds, de, clamp) == Halts(Token(true, out, if d.found then d.pos else e + 1, d.buf))
  {
  }

  // ---------------------------------------------------------------- what get_addr_spec produces

  /** The bytes before the local part's end are kept, '@' is at e and the domain
      [ds, de] with the byte that stops it appears again from e + 1 on. */
  lemma SpliceLayout(b: seq<Byte>, e: nat, ds: nat, de: nat, n: nat)
    requires Terminated(b) && e < ds <= de < |b| && ds + n <= |b|
    requires n >= de - ds && (n > de - ds || ds == e + 1)
    ensures var m := Moved(b[e := AT], e + 1, ds, n);
            && Terminated(m) && m[..e] == b[..e] && m[e] == AT
            && forall q :: ds <= q <= de ==> m[e + 1 + (q - ds)] == b[q]
  {
    var m := Moved(b[e := AT], e + 1, ds, n);
    assert Terminated(b[e := AT]);
    MovedWindow(b[e := AT], e + 1, ds, n);
    forall q | ds <= q <= de
      ensures m[e + 1 + (q - ds)] == b[q]
    {
      if q == de && n == de - ds {
        assert e + 1 + (q - ds) == de;
      }
    }
  }

  /** After the copy of a dot-atom domain that starts at ds, the text from e + 1
      is that dot-atom again, stopped by the same byte, and get_domain finds it
      there. */
  lemma MovedDotAtom(b: seq<Byte>, e: nat, ds: nat, n: nat)
    requires Terminated(b) && e < ds < |b| && IsAtext(b[ds])
    requires var de := AtomRun(b, ds + 1);
             ds + n <= |b| && n >= de - ds && (n > de - ds || ds == e + 1)
    ensures var m := Moved(b[e := AT], e + 1, ds, n);
            Terminated(m) && IsAtext(m[e + 1]) && AtomRun(m, e + 2) == e + 1 + (AtomRun(b, ds + 1) - ds)
  {
    var de := AtomRun(b, ds + 1);
    var m := Moved(b[e := AT], e + 1, ds, n);
    SpliceLayout(b, e, ds, de, n);
    assert m[e + 1] == b[ds];
    forall q | ds + 1 <= q <= de
      ensures m[e + 2 + (q - (ds + 1))] == b[q]
    {
      assert m[e + 1 + (q - ds)] == b[q];
    }
    AtomRunShifted(b, m, ds + 1, e + 2);
  }

  /** The copy for a dot-atom domain from ds to de = AtomRun(b, ds + 1) leaves an
      atext at e + 1 and the same run after it. */
  lemma CopiedDotAtom(b: seq<Byte>, e: nat, ds: nat, de: nat, clamp: bool)
    requires Terminated(b) && e < ds < de < |b|
    requires IsAtext(b[ds]) && de == AtomRun(b, ds + 1)
    requires ds + CopyCount(|b|, e, ds, de, clamp) <= |b|
    ensures var m := Moved(b[e := AT], e + 1, ds, CopyCount(|b|, e, ds, de, clamp));
            IsAtext(m[e + 1]) && AtomRun(m, e + 2) == e + 1 + (de - ds)
  {
    CopyReachesEnd(|b|, e, ds, de, clamp);
    MovedDotAtom(b, e, ds, CopyCount(|b|, e, ds, de, clamp));
  }

  /** The second get_domain on a copy that starts with a dot-atom. */
  lemma SpliceFindsAtom(b: seq<Byte>, out: nat, e: nat, ds: nat, de: nat, clamp: bool)
    requires Terminated(b) && e < ds < de < |b|
    requires ds + CopyCount(|b|, e, ds, de, clamp) <= |b|
    requires var m := Moved(b[e := AT], e + 1, ds, CopyCount(|b|, e, ds, de, clamp));
             IsAtext(m[e + 1]) && AtomRun(m, e + 2) == e + 1 + (de - ds)
    ensures Splice(b, out, e, ds, de, clamp) ==
              Halts(Token(true, out, e + 1 + (de - ds), Moved(b[e := AT], e + 1, ds, CopyCount(|b|, e, ds, de, clamp))))
  {
    var m := Moved(b[e := AT], e + 1, ds, CopyCount(|b|, e, ds, de, clamp));
    DomainOfDotAtom(m, e + 1);
    SpliceRescan(b, out, e, ds, de, clamp, Token(true, e + 1, e + 1 + (de - ds), m));
  }

  /** When the domain is a dot-atom from ds, ending at de, the second get_domain
      finds the copy of it right after '@', leaves the buffer as the copy left it
      and stops where the copied dot-atom ends. */
  lemma SpliceOfDotAtom(b: seq<Byte>, out: nat, e: nat, ds: nat, de: nat, clamp: bool)
    requires Terminated(b) && e < ds < de < |b|
    requires IsAtext(b[ds]) && de == AtomRun(b, ds + 1)
    requires ds + CopyCount(|b|, e, ds, de, clamp) <= |b|
    ensures Splice(b, out, e, ds, de, clamp) ==
              Halts(Token(true, out, e + 1 + (de - ds), Moved(b[e := AT], e + 1, ds, CopyCount(|b|, e, ds, de, clamp))))
  {
    CopiedDotAtom(b, e, ds, de, clamp);
    SpliceFindsAtom(b, out, e, ds, de, clamp);
  }

  /** With neither CFWS between the local part and '@' nor CFWS between '@' and a
      dot-atom domain, the copy moves every byte onto itself: the buffer is left
      as it was. */
  lemma SpliceOfAdjacentDotAtom(b: seq<Byte>, out: nat, e: nat, de: nat, clamp: bool)
    requires Terminated(b) && e + 1 < de < |b| && b[e] == AT
    requires IsAtext(b[e + 1]) && de == AtomRun(b, e + 2)
    ensures Splice(b, out, e, e + 1, de, clamp) == Halts(Token(true, out, de, b))
  {
    SpliceOfDotAtom(b, out, e, e + 1, de, clamp);
    AtInPlace(b, e, CopyCount(|b|, e, e + 1, de, clamp));
  }

  lemma AtInPlace(b: seq<Byte>, e: nat, n: nat)
    requires e + 1 + n <= |b| && b[e] == AT
    ensures Moved(b[e := AT], e + 1, e + 1, n) == b
  {
    MovedInPlace(b[e := AT], e + 1, n);
    assert b[e := AT] == b;
  }

  /** Whatever the domain, the result keeps the text before the local part's end,
      has '@' at e and the domain's first byte right after it. */
  lemma SpliceKeepsPrefix(b: seq<Byte>, out: nat, e: nat, ds: nat, de: nat, clamp: bool, t: Token)
    requires Terminated(b) && e < ds <= de < |b|
    requires Splice(b, out, e, ds, de, clamp) == Halts(t)
    ensures t.buf[..e] == b[..e] && t.buf[e] == AT
    ensures ds < de ==> t.buf[e + 1] == b[ds]
  {
    var m := SpliceCopies(b, out, e, ds, de, clamp);
    CopyReachesEnd(|b|, e, ds, de, clamp);
    SpliceLayout(b, e, ds, de, CopyCount(|b|, e, ds, de, clamp));
    var d := Domain(m, e + 1).value;
    DomainKeepsStart(m, e + 1, d);
    SpliceRescan(b, out, e, ds, de, clamp, d);
    assert t.buf[..e + 2] == m[..e + 2];
    assert t.buf[e] == t.buf[..e + 2][e] && t.buf[e + 1] == t.buf[..e + 2][e + 1];
    assert t.buf[..e] == t.buf[..e + 2][..e];
  }

  /** A domain-literal domain is copied from its output pointer, past '[' and
      the FWS after it, so the byte right after the written '@' is not '['. */
  lemma LiteralDomainLosesBracket(b: seq<Byte>, i: nat, out: nat, e: nat, at: nat, clamp: bool, l: Token, t: Token)
    requires Terminated(b) && i <= out <= e <= at < |b| && b[at] == AT
    requires DomainLiteral(b, at + 1) == Halts(l) && l.found
    requires AfterAt(b, i, out, e, at, clamp) == Halts(t)
    ensures Cfws(b, at + 1).Halts? && b[Cfws(b, at + 1).value.pos] == LBRACKET
    ensures t.found && t.buf[e] == AT && t.buf[e + 1] != LBRACKET
  {
    var d := AfterAtSplice(b, i, out, e, at, clamp, t);
    DomainOfLiteral(b, at + 1, l);
    DomainLiteralStart(b, at + 1, l);
    SpliceKeepsPrefix(d.buf, out, e, d.out, d.pos, clamp, t);
  }

  /** A get_addr_spec that got past '@' ran get_domain and, when that found a
      domain, spliced it in. */
  lemma AfterAtSplice(b: seq<Byte>, i: nat, out: nat, e: nat, at: nat, clamp: bool, t: Token) returns (d: Token)
    requires Terminated(b) && i <= out <= e <= at < |b| && b[at] == AT
    requires AfterAt(b, i, out, e, at, clamp) == Halts(t)
    ensures Domain(b, at + 1) == Halts(d)
    ensures d.found ==> Terminated(d.buf) && e < d.out <= d.pos < |d.buf|
    ensures d.found ==> Splice(d.buf, out, e, d.out, d.pos, clamp) == Halts(t)
  {
    d := Domain(b, at + 1).value;
  }

  /** The clean form get_addr_spec produces from a dot-atom domain: a dot-atom
      [out, e), '@' at e and a dot-atom [e + 1, de), each stopped by the next. */
  ghost predicate CleanAddress(buf: seq<Byte>, out: nat, e: nat, de: nat) {
    && Terminated(buf) && out < e && e + 1 < de < |buf|
    && IsAtext(buf[out]) && AtomRun(buf, out + 1) == e
    && buf[e] == AT
    && IsAtext(buf[e + 1]) && AtomRun(buf, e + 2) == de
  }

  /** An address in clean form is accepted as it stands: get_addr_spec from its
      first byte ends at its end and leaves the buffer as it was. */
  lemma CleanAccepted(buf: seq<Byte>, out: nat, e: nat, de: nat, clamp: bool)
    requires CleanAddress(buf, out, e, de)
    ensures AddrSpecWith(buf, out, clamp) == Halts(Token(true, out, de, buf))
  {
    CleanLocalPart(buf, out, e, de, clamp);
    CfwsStaysPut(buf, e);
    AfterLocalCfws(buf, out, out, e, clamp, Skip(false, e));
    CleanDomain(buf, out, e, de, clamp);
  }

  /** In clean form, '@' stands right after the local part and the domain is
      already where the copy would put it. */
  lemma CleanDomain(buf: seq<Byte>, out: nat, e: nat, de: nat, clamp: bool)
    requires CleanAddress(buf, out, e, de)
    ensures AfterAt(buf, out, out, e, e, clamp) == Halts(Token(true, out, de, buf))
  {
    DomainOfDotAtom(buf, e + 1);
    AfterAtDomain(buf, out, out, e, e, clamp, Token(true, e + 1, de, buf));
    SpliceOfAdjacentDotAtom(buf, out, e, de, clamp);
  }

  /** In clean form, get_local_part finds the dot-atom [out, e) in place. */
  lemma CleanLocalPart(buf: seq<Byte>, out: nat, e: nat, de: nat, clamp: bool)
    requires CleanAddress(buf, out, e, de)
    ensures AddrSpecWith(buf, out, clamp) == AfterLocal(buf, out, out, e, clamp)
  {
    var lp := Token(true, out, e, buf);
    AtextIsNoDelimiter(buf[out]);
    CfwsStaysPut(buf, out);
    QuotedAfterCfws(buf, out, Skip(false, out));
    assert QuotedString(buf, out) == Halts(NoToken(buf, out));
    assert DotAtom(buf, out) == Halts(lp);
    assert LocalPart(buf, out) == Halts(lp);
    AddrSpecAfterLocalPart(buf, out, clamp, lp);
  }

  /** The copy for a dot-atom local part [out, e) and a dot-atom domain from ds
      leaves the address in clean form. */
  lemma SpliceCleanResult(b: seq<Byte>, out: nat, e: nat, ds: nat, de: nat, clamp: bool)
    requires Terminated(b) && out < e < ds < de < |b|
    requires IsAtext(b[out]) && AtomRun(b, out + 1) == e
    requires IsAtext(b[ds]) && de == AtomRun(b, ds + 1)
    requires ds + CopyCount(|b|, e, ds, de, clamp) <= |b|
    ensures CleanAddress(Moved(b[e := AT], e + 1, ds, CopyCount(|b|, e, ds, de, clamp)), out, e, e + 1 + (de - ds))
  {
    var n := CopyCount(|b|, e, ds, de, clamp);
    var m := Moved(b[e := AT], e + 1, ds, n);
    CopyReachesEnd(|b|, e, ds, de, clamp);
    SpliceLayout(b, e, ds, de, n);
    CopiedDotAtom(b, e, ds, de, clamp);
    forall q | out + 1 <= q < e
      ensures m[q] == b[q]
    {
      assert m[q] == m[..e][q];
    }
    assert m[out] == m[..e][out];
    AtomRunUpTo(b, m, out + 1, e);
  }

  /** A successful get_addr_spec did not start with a quoted-string: a quoted
      local part is always rejected. */
  lemma NoQuotedLocalPart(buf: seq<Byte>, i: nat, clamp: bool, t: Token)
    requires Terminated(buf) && i < |buf|
    requires AddrSpecWith(buf, i, clamp) == Halts(t) && t.found
    ensures LocalPart(buf, i) == DotAtom(buf, i)
  {
    var q := QuotedString(buf, i).value;
    if q.found {
      QuotedLocalPartRejected(buf, i, clamp, q);
    }
  }

  /** A successful get_addr_spec found a dot-atom local part [out, e). */
  lemma LocalDotAtom(buf: seq<Byte>, i: nat, clamp: bool, t: Token) returns (out: nat, e: nat)
    requires Terminated(buf) && i < |buf|
    requires AddrSpecWith(buf, i, clamp) == Halts(t) && t.found
    ensures i <= out < e < |buf| && IsAtext(buf[out]) && AtomRun(buf, out + 1) == e
    ensures AfterLocal(buf, i, out, e, clamp) == Halts(t)
    ensures LocalPart(buf, i) == Halts(Token(true, out, e, buf))
  {
    NoQuotedLocalPart(buf, i, clamp, t);
    var lp := DotAtom(buf, i).value;
    out := Cfws(buf, i).value.pos;
    assert lp == AtomAt(buf, i, out);
    AddrSpecAfterLocalPart(buf, i, clamp, lp);
    e := lp.pos;
  }

  lemma AtAfterLocal(b: seq<Byte>, i: nat, out: nat, e: nat, clamp: bool, t: Token) returns (at: nat)
    requires Terminated(b) && i <= out <= e < |b|
    requires AfterLocal(b, i, out, e, clamp) == Halts(t) && t.found
    ensures e <= at < |b| && b[at] == AT && AfterAt(b, i, out, e, at, clamp) == Halts(t)
    ensures Cfws(b, e).Halts? && Cfws(b, e).value.pos == at
  {
    var cf := Cfws(b, e).value;
    AfterLocalCfws(b, i, out, e, clamp, cf);
    at := cf.pos;
  }

  /** Without a '[' after the '@', the domain is a dot-atom [ds, de). */
  lemma DomainAfterAt(b: seq<Byte>, i: nat, out: nat, e: nat, at: nat, clamp: bool, t: Token) returns (ds: nat, de: nat)
    requires Terminated(b) && i <= out <= e <= at < |b| && b[at] == AT
    requires forall k :: at < k < |b| ==> b[k] != LBRACKET
    requires AfterAt(b, i, out, e, at, clamp) == Halts(t) && t.found
    ensures at < ds < de < |b| && IsAtext(b[ds]) && de == AtomRun(b, ds + 1)
    ensures Splice(b, out, e, ds, de, clamp) == Halts(t)
    ensures Domain(b, at + 1) == Halts(Token(true, ds, de, b))
  {
    DomainWithoutBracket(b, at + 1);
    ds := Cfws(b, at + 1).value.pos;
    var d := AtomAt(b, at + 1, ds);
    assert Domain(b, at + 1) == Halts(d);
    AfterAtDomain(b, i, out, e, at, clamp, d);
    de := d.pos;
  }

  /** On an input without '[', a successful get_addr_spec found a dot-atom local
      part [out, e), skipped CFWS from e to '@' at `at`, and found a dot-atom
      domain [ds, de) after it; its result is the tail from there. */
  lemma DotAtomAddress(buf: seq<Byte>, i: nat, clamp: bool, t: Token) returns (out: nat, e: nat, at: nat, ds: nat, de: nat)
    requires Terminated(buf) && i < |buf|
    requires forall k :: i <= k < |buf| ==> buf[k] != LBRACKET
    requires AddrSpecWith(buf, i, clamp) == Halts(t) && t.found
    ensures out == t.out && out < e <= at < ds < de < |buf|
    ensures IsAtext(buf[out]) && AtomRun(buf, out + 1) == e
    ensures LocalPart(buf, i) == Halts(Token(true, out, e, buf))
    ensures Cfws(buf, e).Halts? && Cfws(buf, e).value.pos == at && buf[at] == AT
    ensures Domain(buf, at + 1) == Halts(Token(true, ds, de, buf))
    ensures IsAtext(buf[ds]) && de == AtomRun(buf, ds + 1)
    ensures Splice(buf, out, e, ds, de, clamp) == Halts(t)
  {
    out, e := LocalDotAtom(buf, i, clamp, t);
    at := AtAfterLocal(buf, i, out, e, clamp, t);
    ds, de := DomainAfterAt(buf, i, out, e, at, clamp, t);
  }

  /** The splice of a dot-atom domain after a dot-atom local part [out, e)
      leaves the address in clean form. */
  lemma SpliceCleanTail(b: seq<Byte>, out: nat, e: nat, ds: nat, de: nat, clamp: bool, t: Token)
    requires Terminated(b) && out < e < ds < de < |b|
    requires IsAtext(b[out]) && AtomRun(b, out + 1) == e
    requires IsAtext(b[ds]) && de == AtomRun(b, ds + 1)
    requires Splice(b, out, e, ds, de, clamp) == Halts(t)
    ensures CleanAddress(t.buf, t.out, e, t.pos)
  {
    var _ := SpliceCopies(b, out, e, ds, de, clamp);
    SpliceOfDotAtom(b, out, e, ds, de, clamp);
    SpliceCleanResult(b, out, e, ds, de, clamp);
  }

  /** get_addr_spec on an input without '[' leaves local@domain in clean form
      from the output pointer to the cursor. */
  lemma ResultIsClean(buf: seq<Byte>, i: nat, clamp: bool, t: Token)
    requires Terminated(buf) && i < |buf|
    requires forall k :: i <= k < |buf| ==> buf[k] != LBRACKET
    requires AddrSpecWith(buf, i, clamp) == Halts(t) && t.found
    ensures exists e :: CleanAddress(t.buf, t.out, e, t.pos)
  {
    var out, e, _, ds, de := DotAtomAddress(buf, i, clamp, t);
    SpliceCleanTail(buf, out, e, ds, de, clamp, t);
  }

  /** The copy keeps the local part [out, e) and puts the domain's bytes
      [ds, de) right after the '@' at e. */
  lemma CopiedDomain(b: seq<Byte>, out: nat, e: nat, ds: nat, de: nat, n: nat)
    requires Terminated(b) && out <= e < ds <= de < |b| && ds + n <= |b|
    requires n >= de - ds && (n > de - ds || ds == e + 1)
    ensures var m := Moved(b[e := AT], e + 1, ds, n);
            && m[out .. e] == b[out .. e] && m[e] == AT
            && e + 1 + (de - ds) <= |m| && m[e + 1 .. e + 1 + (de - ds)] == b[ds .. de]
  {
    var m := Moved(b[e := AT], e + 1, ds, n);
    SpliceLayout(b, e, ds, de, n);
    assert m[out .. e] == m[..e][out ..];
    assert b[out .. e] == b[..e][out ..];
    forall q | 0 <= q < de - ds
      ensures m[e + 1 .. e + 1 + (de - ds)][q] == b[ds .. de][q]
    {
      assert m[e + 1 + ((ds + q) - ds)] == b[ds + q];
    }
  }

  /** The splice of a dot-atom domain [ds, de) leaves the buffer as the copy
      left it and the cursor where the copied domain ends. */
  lemma SpliceResult(b: seq<Byte>, out: nat, e: nat, ds: nat, de: nat, clamp: bool, t: Token)
    requires Terminated(b) && e < ds < de < |b|
    requires IsAtext(b[ds]) && de == AtomRun(b, ds + 1)
    requires Splice(b, out, e, ds, de, clamp) == Halts(t)
    ensures ds + CopyCount(|b|, e, ds, de, clamp) <= |b|
    ensures t.buf == Moved(b[e := AT], e + 1, ds, CopyCount(|b|, e, ds, de, clamp))
    ensures t.pos == e + 1 + (de - ds)
  {
    var _ := SpliceCopies(b, out, e, ds, de, clamp);
    SpliceOfDotAtom(b, out, e, ds, de, clamp);
  }

  /** The splice of a dot-atom domain [ds, de) after a local part [out, e):
      the local part is kept, '@' stands at e and the domain's bytes follow it,
      up to the cursor. */
  lemma SpliceContents(b: seq<Byte>, out: nat, e: nat, ds: nat, de: nat, clamp: bool, t: Token)
    requires Terminated(b) && out <= e < ds < de < |b|
    requires IsAtext(b[ds]) && de == AtomRun(b, ds + 1)
    requires Splice(b, out, e, ds, de, clamp) == Halts(t)
    ensures t.pos == e + 1 + (de - ds) < |t.buf|
    ensures t.buf[out .. e] == b[out .. e] && t.buf[e] == AT && t.buf[e + 1 .. t.pos] == b[ds .. de]
  {
    SpliceResult(b, out, e, ds, de, clamp, t);
    CopyReachesEnd(|b|, e, ds, de, clamp);
    CopiedDomain(b, out, e, ds, de, CopyCount(|b|, e, ds, de, clamp));
  }

  /** What get_addr_spec writes, on an input without '[': from the output
      pointer, the input's own dot-atom local part, then '@', then the bytes of
      the dot-atom domain that get_domain found after the input's '@', with the
      cursor right after them. */
  lemma ResultIsInputParts(buf: seq<Byte>, i: nat, clamp: bool, t: Token) returns (e: nat, at: nat, ds: nat, de: nat)
    requires Terminated(buf) && i < |buf|
    requires forall k :: i <= k < |buf| ==> buf[k] != LBRACKET
    requires AddrSpecWith(buf, i, clamp) == Halts(t) && t.found
    ensures LocalPart(buf, i) == Halts(Token(true, t.out, e, buf))
    ensures Cfws(buf, e).Halts? && Cfws(buf, e).value.pos == at && buf[at] == AT
    ensures Domain(buf, at + 1) == Halts(Token(true, ds, de, buf))
    ensures t.out < e <= at < ds < de && t.pos == e + 1 + (de - ds) < |t.buf|
    ensures t.buf[t.out .. e] == buf[t.out .. e] && t.buf[e] == AT
    ensures t.buf[e + 1 .. t.pos] == buf[ds .. de]
  {
    var out;
    out, e, at, ds, de := DotAtomAddress(buf, i, clamp, t);
    SpliceContents(buf, out, e, ds, de, clamp, t);
  }

  /** Feeding the address get_addr_spec produced back into it, from the output
      pointer, accepts it unchanged: same cursor, same buffer. */
  lemma AddrSpecRoundTrip(buf: seq<Byte>, i: nat, clamp: bool, t: Token)
    requires Terminated(buf) && i < |buf|
    requires forall k :: i <= k < |buf| ==> buf[k] != LBRACKET
    requires AddrSpecWith(buf, i, clamp) == Halts(t) && t.found
    ensures AddrSpecWith(t.buf, t.out, clamp) == Halts(Token(true, t.out, t.pos, t.buf))
  {
    ResultIsClean(buf, i, clamp, t);
    var e :| CleanAddress(t.buf, t.out, e, t.pos);
    CleanAccepted(t.buf, t.out, e, t.pos, clamp);
  }

  /** get_quoted_string leaves the cursor on the NUL it wrote, so skip_CFWS never
      reaches an '@' after a quoted local part: get_addr_spec fails on every
      quoted local part, with the NUL left in the buffer. */
  lemma QuotedLocalPartRejected(buf: seq<Byte>, i: nat, clamp: bool, q: Token)
    requires Terminated(buf) && i < |buf|
    requires QuotedString(buf, i) == Halts(q) && q.found
    ensures AddrSpecWith(buf, i, clamp) == Halts(NoToken(q.buf, i))
  {
    QuotedStringMatch(buf, i, q);
    assert LocalPart(buf, i) == Halts(q);
    AddrSpecAfterLocalPart(buf, i, clamp, q);
    CfwsStaysPut(q.buf, q.pos);
    AfterLocalCfws(q.buf, i, q.out, q.pos, clamp, Skip(false, q.pos));
  }

  // ---------------------------------------------------------------- the clamped copy

  lemma SpliceAgrees(b: seq<Byte>, out: nat, e: nat, ds: nat, de: nat)
    requires Terminated(b) && e < ds <= de < |b|
    requires !Splice(b, out, e, ds, de, false).OverRead?
    ensures Splice(b, out, e, ds, de, true) == Splice(b, out, e, ds, de, false)
  {
    assert CopyCount(|b|, e, ds, de, true) == CopyCount(|b|, e, ds, de, false);
  }

  lemma AfterAtAgrees(b: seq<Byte>, i: nat, out: nat, e: nat, at: nat)
    requires Terminated(b) && i <= out <= e <= at < |b| && b[at] == AT
    requires !AfterAt(b, i, out, e, at, false).OverRead?
    ensures AfterAt(b, i, out, e, at, true) == AfterAt(b, i, out, e, at, false)
  {
    var r := Domain(b, at + 1);
    if r.Halts? {
      AfterAtDomain(b, i, out, e, at, false, r.value);
      AfterAtDomain(b, i, out, e, at, true, r.value);
      if r.value.found {
        SpliceAgrees(r.value.buf, out, e, r.value.out, r.value.pos);
      }
    }
  }

  lemma AfterLocalAgrees(b: seq<Byte>, i: nat, out: nat, e: nat)
    requires Terminated(b) && i <= out <= e < |b|
    requires !AfterLocal(b, i, out, e, false).OverRead?
    ensures AfterLocal(b, i, out, e, true) == AfterLocal(b, i, out, e, false)
  {
    var r := Cfws(b, e);
    if r.Halts? {
      AfterLocalCfws(b, i, out, e, false, r.value);
      AfterLocalCfws(b, i, out, e, true, r.value);
      if b[r.value.pos] == AT {
        AfterAtAgrees(b, i, out, e, r.value.pos);
      }
    }
  }

  /** Stopping the copy at the end of the array changes nothing on the inputs on
      which get_addr_spec as written stays inside it. */
  lemma AddrSpecAgrees(buf: seq<Byte>, i: nat)
    requires Terminated(buf) && i < |buf|
    requires !AddrSpec(buf, i).OverRead?
    ensures AddrSpecClamped(buf, i) == AddrSpec(buf, i)
  {
    var r := LocalPart(buf, i);
    if r.Halts? {
      AddrSpecAfterLocalPart(buf, i, false, r.value);
      AddrSpecAfterLocalPart(buf, i, true, r.value);
      if r.value.found {
        AfterLocalAgrees(r.value.buf, i, r.value.out, r.value.pos);
      }
    }
  }

  /** The clamped copy never runs past the array: the clamped tail reads past it
      only where the second get_domain, on the copied buffer, does. */
  lemma SpliceClampedInBounds(b: seq<Byte>, out: nat, e: nat, ds: nat, de: nat)
    requires Terminated(b) && e < ds <= de < |b|
    ensures var n := CopyCount(|b|, e, ds, de, true);
            && ds + n <= |b|
            && (Splice(b, out, e, ds, de, true).OverRead? <==> Domain(Moved(b[e := AT], e + 1, ds, n), e + 1).OverRead?)
  {
    var n := CopyCount(|b|, e, ds, de, true);
    var m := Moved(b[e := AT], e + 1, ds, n);
    assert m[|b| - 1] == b[|b| - 1];
  }

  // ---------------------------------------------------------------- remove_trailing_CFWS

  datatype Trim = Trim(removed: bool, buf: seq<Byte>)

  /** remove_trailing_CFWS: when skip_CFWS finds CFWS at the cursor, the byte at
      the cursor becomes NUL, which ends the string before the CFWS. */
  function TrimTrailing(buf: seq<Byte>, i: nat): (r: Run<Trim>)
    requires Terminated(buf) && i < |buf|
    ensures r.Halts? <==> Cfws(buf, i).Halts?
    ensures r.Halts? ==> |r.value.buf| == |buf| && Terminated(r.value.buf)
  {
    var c :- Cfws(buf, i);
    if !c.moved then Halts(Trim(false, buf)) else Halts(Trim(true, buf[i := NUL]))
  }

  /** The C string that starts at j: the bytes up to the first NUL. */
  function CString(buf: seq<Byte>, j: nat): (r: seq<Byte>)
    requires Terminated(buf) && j < |buf|
    ensures j + |r| < |buf| && buf[j + |r|] == NUL
    ensures r == buf[j .. j + |r|] && NUL !in r
    decreases |buf| - j
  {
    if buf[j] == NUL then [] else [buf[j]] + CString(buf, j + 1)
  }

  /** The C string from j runs to the first NUL at or after j. */
  lemma {:induction false} CStringUpTo(buf: seq<Byte>, j: nat, e: nat)
    requires Terminated(buf) && j <= e < |buf| && buf[e] == NUL
    requires forall k :: j <= k < e ==> buf[k] != NUL
    ensures CString(buf, j) == buf[j .. e]
    decreases e - j
  {
    if j < e {
      CStringUpTo(buf, j + 1, e);
      assert buf[j .. e] == [buf[j]] + buf[j + 1 .. e];
    }
  }

  /** A NUL written at i ends every C string that reaches i. */
  lemma {:induction false} CStringCut(buf: seq<Byte>, i: nat, j: nat)
    requires Terminated(buf) && j <= i < |buf| && NUL !in buf[j .. i]
    ensures CString(buf[i := NUL], j) == buf[j .. i]
    decreases i - j
  {
    if j < i {
      assert buf[j] == buf[j .. i][0];
      assert buf[j + 1 .. i] == buf[j .. i][1..];
      CStringCut(buf, i, j + 1);
    }
  }

  /** remove_trailing_CFWS removes exactly when CFWS follows the cursor, and then
      the string that ran into the CFWS now stops before it; nothing else changes. */
  lemma TrimCutsString(buf: seq<Byte>, i: nat, j: nat, r: Trim)
    requires Terminated(buf) && j <= i < |buf| && NUL !in buf[j .. i]
    requires TrimTrailing(buf, i) == Halts(r)
    ensures r.removed <==> Cfws(buf, i).value.pos > i
    ensures r.removed ==> CString(r.buf, j) == buf[j .. i] && r.buf[i + 1 ..] == buf[i + 1 ..]
    ensures r.removed ==> r.buf == buf[i := NUL]
    ensures !r.removed ==> r.buf == buf
  {
    CfwsMovedIffAdvanced(buf, i);
    if r.removed {
      CStringCut(buf, i, j);
    }
  }

  /** A second remove_trailing_CFWS at the same cursor removes nothing. */
  lemma TrimIdempotent(buf: seq<Byte>, i: nat, r: Trim)
    requires Terminated(buf) && i < |buf| && TrimTrailing(buf, i) == Halts(r)
    ensures TrimTrailing(r.buf, i) == Halts(Trim(false, r.buf))
  {
    if r.removed {
      CfwsStaysPut(r.buf, i);
    }
  }

  // ---------------------------------------------------------------- the C routines

  /** The copy loop of get_addr_spec: `*s++ = *domain_part++` while s is below
      dst + n. */
  method CopyForward(a: array<Byte>, dst: nat, src: nat, n: nat)
    requires dst <= src && src + n <= a.Length
    modifies a
    ensures a[..] == Moved(old(a[..]), dst, src, n)
  {
    var s := dst;
    var r := src;
    while s < dst + n
      invariant dst <= s <= dst + n && r == src + (s - dst)
      invariant Moved(a[..], s, r, dst + n - s) == Moved(old(a[..]), dst, src, n)
      decreases dst + n - s
    {
      a[s] := a[r];
      s := s + 1;
      r := r + 1;
    }
  }

  /** The tail of get_addr_spec: '@', the copy and the second get_domain. */
  method SpliceIn(a: array<Byte>, out: nat, e: nat, ds: nat, de: nat) returns (j: nat)
    requires Terminated(a[..]) && e < ds <= de < a.Length
    requires Splice(a[..], out, e, ds, de, false).Halts?
    modifies a
    ensures var t := Splice(old(a[..]), out, e, ds, de, false).value;
            j == t.pos && a[..] == t.buf
  {
    ghost var b := a[..];
    ghost var m := SpliceCopies(b, out, e, ds, de, false);
    a[e] := AT;
    assert a[..] == b[e := AT];
    CopyForward(a, e + 1, ds, de - e - 1);
    assert a[..] == m;
    var f, o, p := GetDomain(a, e + 1);
    SpliceRescan(b, out, e, ds, de, false, Domain(m, e + 1).value);
    j := if f then p else e + 1;
  }

  /** get_addr_spec after its skip_CFWS found '@' at `at`. */
  method AddrSpecAfterAt(a: array<Byte>, i: nat, out: nat, e: nat, at: nat) returns (found: bool, j: nat)
    requires Terminated(a[..]) && i <= out <= e <= at < a.Length && a[at] == AT
    requires AfterAt(a[..], i, out, e, at, false).Halts?
    modifies a
    ensures var t := AfterAt(old(a[..]), i, out, e, at, false).value;
            found == t.found && j == t.pos && a[..] == t.buf
  {
    ghost var b := a[..];
    var df, ds, de := GetDomain(a, at + 1);
    AfterAtDomain(b, i, out, e, at, false, Domain(b, at + 1).value);
    if !df {
      return false, i;
    }
    j := SpliceIn(a, out, e, ds, de);
    found := true;
  }

  method GetAddrSpec(a: array<Byte>, i: nat) returns (found: bool, out: nat, j: nat)
    requires Terminated(a[..]) && i < a.Length
    requires AddrSpec(a[..], i).Halts?
    modifies a
    ensures var t := AddrSpec(old(a[..]), i).value;
            found == t.found && j == t.pos && (found ==> out == t.out) && a[..] == t.buf
  {
    ghost var b := a[..];
    var lf, e;
    lf, out, e := GetLocalPart(a, i);
    AddrSpecAfterLocalPart(b, i, false, LocalPart(b, i).value);
    if !lf {
      return false, out, i;
    }
    ghost var b2 := a[..];
    var d, c := SkipCfws(a, e);
    AfterLocalCfws(b2, i, out, e, false, Skip(d, c));
    if a[c] != AT {
      return false, out, i;
    }
    found, j := AddrSpecAfterAt(a, i, out, e, c);
  }

  method RemoveTrailingCfws(a: array<Byte>, i: nat) returns (removed: bool)
    requires Terminated(a[..]) && i < a.Length
    requires TrimTrailing(a[..], i).Halts?
    modifies a
    ensures TrimTrailing(old(a[..]), i) == Halts(Trim(removed, a[..]))
  {
    var did, _ := SkipCfws(a, i);
    if !did {
      return false;
    }
    a[i] := NUL;
    return true;
  }
}
