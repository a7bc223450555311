/** Concrete runs of get_addr_spec and remove_trailing_CFWS on small buffers,
    written as byte displays with the text they hold beside them. */
module Scenarios {
  import opened Chars
  import opened Skippers
  import opened Extractors
  import opened Assembler

  /** "a  @b": the local part ends at 1, '@' is at 3 and the domain is "b" at
      [4, 5); the copy moves 5 - 1 - 1 = 3 bytes from 4, so it reads index 6 of
      a 6-byte array. */
  lemma CopyPastTheEnd()
    ensures AddrSpec([97, 32, 32, 64, 98, 0], 0) == OverRead
  {
    var buf: seq<Byte> := [97, 32, 32, 64, 98, 0];
    assert Cfws(buf, 0) == Halts(Skip(false, 0));
    assert LocalPart(buf, 0) == Halts(Token(true, 0, 1, buf));
    assert Cfws(buf, 1) == Halts(Skip(true, 3));
    assert Cfws(buf, 4) == Halts(Skip(false, 4));
    assert Domain(buf, 4) == Halts(Token(true, 4, 5, buf));
  }

  /** "(a)(b)": skip_CFWS takes the first comment only, and a second call takes
      the second one, so skip_CFWS is not idempotent. */
  lemma TwoComments()
    ensures Cfws([40, 97, 41, 40, 98, 41, 0], 0) == Halts(Skip(true, 3))
    ensures Cfws([40, 97, 41, 40, 98, 41, 0], 3) == Halts(Skip(true, 6))
  {
    var b: seq<Byte> := [40, 97, 41, 40, 98, 41, 0];
    CommentText(b, 1);
    CommentClose(b, 2);
    CommentText(b, 4);
    CommentClose(b, 5);
    assert Fws(b, 0) == Skip(false, 0);
    assert Fws(b, 3) == Skip(false, 3);
    assert Fws(b, 6) == Skip(false, 6);
  }

  /** "(a)b)": skip_comment stops just past the first ')', not the last. */
  lemma CommentStopsAtFirstClose()
    ensures Comment([40, 97, 41, 98, 41, 0], 0) == Halts(Skip(true, 3))
  {
    var b: seq<Byte> := [40, 97, 41, 98, 41, 0];
    CommentText(b, 1);
    CommentClose(b, 2);
  }

  /** "[1.2.3.4]": no FWS after '[', so the do-while of get_domain_literal never
      ends, and neither does get_domain. */
  lemma LiteralWithoutSpace()
    ensures Domain([91, 49, 46, 50, 46, 51, 46, 52, 93, 0], 0) == Stuck
  {
    var b: seq<Byte> := [91, 49, 46, 50, 46, 51, 46, 52, 93, 0];
    assert Cfws(b, 0) == Halts(Skip(false, 0));
    DomainLiteralStuckWithoutFws(b, 0);
  }

  /** "(a(b))": the nested '(' is never passed, so skip_CFWS never ends. */
  lemma NestedComment()
    ensures Cfws([40, 97, 40, 98, 41, 41, 0], 0) == Stuck
  {
    var b: seq<Byte> := [40, 97, 40, 98, 41, 41, 0];
    assert Fws(b, 0) == Skip(false, 0);
    assert Fws(b, 2) == Skip(false, 2);
    CommentBodyStuckOnParen(b, 2);
    CommentText(b, 1);
    assert Comment(b, 0) == Stuck;
  }

  /** A comment's text byte is taken on its own. */
  lemma CommentText(buf: seq<Byte>, s: nat)
    requires Terminated(buf) && s < |buf| && IsCtext(buf[s])
    ensures CommentBody(buf, s) == CommentBody(buf, s + 1)
  {
    assert Fws(buf, s) == Skip(false, s);
  }

  /** A comment's single space is taken with the text byte after it. */
  lemma CommentSpace(buf: seq<Byte>, s: nat)
    requires Terminated(buf) && s + 1 < |buf| && IsWsp(buf[s]) && IsCtext(buf[s + 1])
    ensures CommentBody(buf, s) == CommentBody(buf, s + 2)
  {
    assert WspRun(buf, s + 1) == s + 1;
    assert Fws(buf, s) == Skip(true, s + 1);
  }

  /** A ')' closes the comment. */
  lemma CommentClose(buf: seq<Byte>, s: nat)
    requires Terminated(buf) && s < |buf| && buf[s] == RPAREN
    ensures CommentBody(buf, s) == Halts(s + 1)
  {
    assert Fws(buf, s) == Skip(false, s);
  }

  /** The buffer of test #9 in tests.c: "pete ( his account)@silly.test(his host)"
      and its NUL, 41 bytes; '@' is at 19, "silly.test" at [20, 30) and
      "(his host)" at [30, 40). */
  const Test9: seq<Byte> := [112, 101, 116, 101, 32, 40, 32, 104, 105, 115, 32, 97, 99, 99, 111,
    117, 110, 116, 41, 64, 115, 105, 108, 108, 121, 46, 116, 101, 115, 116, 40, 104, 105, 115, 32,
    104, 111, 115, 116, 41, 0]

  /** The bytes of Test9 one by one, for the proofs that walk over them. */
  lemma Test9Bytes()
    ensures |Test9| == 41
    ensures Test9[0] == 112 && Test9[1] == 101 && Test9[2] == 116 && Test9[3] == 101 && Test9[4] == 32 && Test9[5] == 40 &&
            Test9[6] == 32 && Test9[7] == 104 && Test9[8] == 105 && Test9[9] == 115 && Test9[10] == 32 && Test9[11] == 97 &&
            Test9[12] == 99 && Test9[13] == 99 && Test9[14] == 111 && Test9[15] == 117 && Test9[16] == 110 && Test9[17] == 116 &&
            Test9[18] == 41 && Test9[19] == 64 && Test9[20] == 115 && Test9[21] == 105 && Test9[22] == 108 && Test9[23] == 108 &&
            Test9[24] == 121 && Test9[25] == 46 && Test9[26] == 116 && Test9[27] == 101 && Test9[28] == 115 && Test9[29] == 116 &&
            Test9[30] == 40 && Test9[31] == 104 && Test9[32] == 105 && Test9[33] == 115 && Test9[34] == 32 && Test9[35] == 104 &&
            Test9[36] == 111 && Test9[37] == 115 && Test9[38] == 116 && Test9[39] == 41 && Test9[40] == 0
  {
  }

  lemma Test9LocalPart()
    ensures LocalPart(Test9, 0) == Halts(Token(true, 0, 4, Test9))
  {
    Test9Bytes();
    CfwsStaysPut(Test9, 0);
    QuotedAfterCfws(Test9, 0, Skip(false, 0));
    assert AtomRun(Test9, 4) == 4;
    assert AtomRun(Test9, 1) == 4;
    assert DotAtom(Test9, 0) == Halts(Token(true, 0, 4, Test9));
  }

  lemma Test9CommentTail()
    ensures CommentBody(Test9, 12) == Halts(19)
  {
    Test9Bytes();
    CommentText(Test9, 17);
    CommentText(Test9, 16);
    CommentText(Test9, 15);
    CommentText(Test9, 14);
    CommentText(Test9, 13);
    CommentText(Test9, 12);
    CommentClose(Test9, 18);
  }

  /** The comment "( his account)" spans [5, 19). */
  lemma Test9Comment()
    ensures Comment(Test9, 5) == Halts(Skip(true, 19))
  {
    Test9Bytes();
    Test9CommentTail();
    CommentSpace(Test9, 10);
    CommentText(Test9, 9);
    CommentText(Test9, 8);
    CommentSpace(Test9, 6);
  }

  lemma Test9Cfws()
    ensures Cfws(Test9, 4) == Halts(Skip(true, 19))
  {
    Test9Bytes();
    Test9Comment();
  }

  lemma Test9Domain()
    ensures AtomRun(Test9, 21) == 30
    ensures Domain(Test9, 20) == Halts(Token(true, 20, 30, Test9))
    ensures Test9[19] == AT
  {
    Test9Bytes();
    assert AtomRun(Test9, 30) == 30;
    assert AtomRun(Test9, 25) == 30;
    assert AtomRun(Test9, 21) == 30;
    DomainOfDotAtom(Test9, 20);
  }

  /** Test #9 up to its second get_domain: the local part "pete" is [0, 4), the
      CFWS after it ends on '@' at 19 and the domain "silly.test" is [20, 30). */
  lemma Test9Parts(clamp: bool)
    ensures AddrSpecWith(Test9, 0, clamp) == Splice(Test9, 0, 4, 20, 30, clamp)
    ensures AtomRun(Test9, 21) == 30
  {
    Test9LocalPart();
    AddrSpecAfterLocalPart(Test9, 0, clamp, Token(true, 0, 4, Test9));
    Test9Cfws();
    AfterLocalCfws(Test9, 0, 0, 4, clamp, Skip(true, 19));
    Test9Domain();
    AfterAtDomain(Test9, 0, 0, 4, 19, clamp, Token(true, 20, 30, Test9));
  }

  /** As written, test #9 copies 30 - 4 - 1 = 25 bytes from 20 and so reads
      indices 41 to 44 of the 41-byte array. */
  lemma Test9AsWritten()
    ensures AddrSpec(Test9, 0) == OverRead
  {
    Test9Parts(false);
  }

  /** Test #9 after the clamped copy: '@' at 4, then the 21 bytes from 20 moved to 5. */
  const Test9Copied: seq<Byte> := Moved(Test9[4 := AT], 5, 20, 21)

  lemma Test9CopiedBytes()
    ensures |Test9Copied| == 41
    ensures Test9Copied[0] == 112 && Test9Copied[1] == 101 && Test9Copied[2] == 116 && Test9Copied[3] == 101 && Test9Copied[4] == 64 && Test9Copied[5] == 115 &&
            Test9Copied[6] == 105 && Test9Copied[7] == 108 && Test9Copied[8] == 108 && Test9Copied[9] == 121 && Test9Copied[10] == 46 && Test9Copied[11] == 116 &&
            Test9Copied[12] == 101 && Test9Copied[13] == 115 && Test9Copied[14] == 116 && Test9Copied[15] == 40 && Test9Copied[16] == 104 && Test9Copied[17] == 105 &&
            Test9Copied[18] == 115 && Test9Copied[19] == 32 && Test9Copied[20] == 104 && Test9Copied[21] == 111 && Test9Copied[22] == 115 && Test9Copied[23] == 116 &&
            Test9Copied[24] == 41 && Test9Copied[25] == 0 && Test9Copied[26] == 116 && Test9Copied[27] == 101 && Test9Copied[28] == 115 && Test9Copied[29] == 116 &&
            Test9Copied[30] == 40 && Test9Copied[31] == 104 && Test9Copied[32] == 105 && Test9Copied[33] == 115 && Test9Copied[34] == 32 && Test9Copied[35] == 104 &&
            Test9Copied[36] == 111 && Test9Copied[37] == 115 && Test9Copied[38] == 116 && Test9Copied[39] == 41 && Test9Copied[40] == 0
  {
    Test9Bytes();
    MovedWindow(Test9[4 := AT], 5, 20, 21);
  }

  /** With the copy clamped, test #9 finds the address: the second get_domain
      finds "silly.test" at [5, 15) and the cursor stops there. */
  lemma Test9ClampedSplice()
    ensures AddrSpecClamped(Test9, 0) == Halts(Token(true, 0, 15, Test9Copied))
  {
    Test9Parts(true);
    Test9Bytes();
    assert CopyCount(41, 4, 20, 30, true) == 21;
    SpliceOfDotAtom(Test9, 0, 4, 20, 30, true);
  }

  lemma Test9Output()
    ensures Test9Copied[0 .. 25] == [112, 101, 116, 101, 64, 115, 105, 108, 108, 121, 46, 116, 101, 115, 116, 40, 104, 105, 115, 32, 104, 111, 115, 116, 41]
  {
    Test9CopiedBytes();
  }

  /** The output string and the rest of the input that test #9 expects:
      "pete@silly.test(his host)" and "(his host)". */
  lemma Test9Strings()
    ensures CString(Test9Copied, 0) == [112, 101, 116, 101, 64, 115, 105, 108, 108, 121, 46, 116, 101, 115, 116, 40, 104, 105, 115, 32, 104, 111, 115, 116, 41]
    ensures CString(Test9Copied, 15) == [40, 104, 105, 115, 32, 104, 111, 115, 116, 41]
  {
    Test9CopiedBytes();
    Test9Output();
    assert forall k :: 0 <= k < 25 ==> Test9Copied[k] == Test9Copied[0 .. 25][k];
    CStringUpTo(Test9Copied, 0, 25);
    CStringUpTo(Test9Copied, 15, 25);
    assert Test9Copied[15 .. 25] == Test9Copied[0 .. 25][15 .. 25];
  }

  lemma Test9TrimComment()
    ensures Comment(Test9Copied, 15) == Halts(Skip(true, 25))
  {
    Test9CopiedBytes();
    CommentText(Test9Copied, 23);
    CommentText(Test9Copied, 22);
    CommentText(Test9Copied, 21);
    CommentText(Test9Copied, 20);
    CommentSpace(Test9Copied, 19);
    CommentText(Test9Copied, 18);
    CommentText(Test9Copied, 17);
    CommentText(Test9Copied, 16);
    CommentClose(Test9Copied, 24);
  }

  lemma Test9TrimCfws()
    ensures Cfws(Test9Copied, 15) == Halts(Skip(true, 25))
  {
    Test9CopiedBytes();
    Test9TrimComment();
    assert Fws(Test9Copied, 15) == Skip(false, 15);
    assert Fws(Test9Copied, 25) == Skip(false, 25);
  }

  /** remove_trailing_CFWS at the cursor leaves "pete@silly.test", as test #9 expects. */
  lemma Test9Trim()
    ensures TrimTrailing(Test9Copied, 15) == Halts(Trim(true, Test9Copied[15 := NUL]))
    ensures CString(Test9Copied[15 := NUL], 0) == [112, 101, 116, 101, 64, 115, 105, 108, 108, 121, 46, 116, 101, 115, 116]
  {
    Test9TrimCfws();
    Test9Output();
    assert Test9Copied[0 .. 15] == Test9Copied[0 .. 25][0 .. 15];
    assert Test9Copied[0 .. 15] == [112, 101, 116, 101, 64, 115, 105, 108, 108, 121, 46, 116, 101, 115, 116];
    TrimCutsString(Test9Copied, 15, 0, Trim(true, Test9Copied[15 := NUL]));
  }
}
