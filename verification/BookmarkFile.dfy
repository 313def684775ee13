/** WriteBmLine (ncftp/bookmark.c), and what ParseHostLine makes of the lines it writes. */
module BookmarkFile {
  import opened BookmarkText
  import opened BookmarkNumbers
  import opened Bookmarks

  // ---- the line ----

  /** An escaped field, cut to the buffer it is made in. */
  function Piece(f: text): text {
    EscapeAll(Retained(ESCAPED_SIZE - 1, 0, f))
  }

  /** The fields of a line, each behind a comma. */
  function Commas(ps: Texts): string {
    match ps
    case Nil => ""
    case Cons(p, tail) => "," + (p + Commas(tail))
  }

  function Fields14To22(b: Fields<text>): Texts {
    Cons(b.lastIP, Cons(Piece(b.comment), Cons("", Cons("", Cons("", Cons("",
      Cons([b.xferMode], Cons(Signed(b.hasUTIME), Cons(Piece(b.ldir), Nil)))))))))
  }

  function Fields7To22(b: Fields<text>): Texts
    requires InRange(b)
  {
    Cons([b.xferType], Cons(Digits(b.port), Cons(Unsigned(b.lastCall),
      Cons(Signed(b.hasSIZE), Cons(Signed(b.hasMDTM), Cons(Signed(b.hasPASV), Cons(Signed(b.isUnix), Fields14To22(b))))))))
  }

  function Fields2To22(b: Fields<text>, savePassword: bool, codec: Codec): Texts
    requires InRange(b)
  {
    Cons(Piece(b.name), Cons(Piece(b.user), Cons(PassText(b, savePassword, codec),
      Cons(Piece(b.acct), Cons(Piece(b.dir), Fields7To22(b))))))
  }

  /** The line for a bookmark, without its newline. */
  function Line(b: Fields<text>, savePassword: bool, codec: Codec): string
    requires InRange(b)
  {
    b.bookmarkName + Commas(Fields2To22(b, savePassword, codec))
  }

  function PassText(b: Fields<text>, savePassword: bool, codec: Codec): text {
    if b.pass != "" && savePassword then PASSWORD_MAGIC + codec.to(b.pass) else ""
  }

  predicate IsInt(n: int) {
    -TWO_31 <= n < TWO_31
  }

  /** The numbers are of their C types. */
  predicate InRange(b: Fields<text>) {
    && b.port < TWO_32
    && -TWO_63 <= b.lastCall < TWO_63
    && IsInt(b.hasSIZE) && IsInt(b.hasMDTM) && IsInt(b.hasPASV) && IsInt(b.isUnix) && IsInt(b.hasUTIME)
  }

  // ---- writing it ----

  class TextFile {
    var contents: string
    const healthy: bool

    constructor (healthy: bool)
      ensures contents == "" && this.healthy == healthy
    {
      this.healthy, this.contents := healthy, "";
    }

    /** fprintf(outfp, "%s", s): it writes all or reports an error. */
    method Fprintf(s: string) returns (ok: bool)
      modifies this
      ensures contents == if ok then old(contents) + s else old(contents)
      ensures healthy ==> ok
    {
      var broken := *;
      ok := healthy || !broken;
      if ok {
        contents := contents + s;
      }
    }

    /** fflush(outfp) */
    method Flush() returns (ok: bool)
      ensures healthy ==> ok
    {
      var broken := *;
      ok := healthy || !broken;
    }

    /** One more field on the way to `goal`, with `rest` to follow. */
    method Put(p: string, ghost rest: Texts, ghost goal: string) returns (ok: bool)
      requires contents + Commas(Cons(p, rest)) == goal
      modifies this
      ensures ok ==> contents + Commas(rest) == goal
      ensures contents <= goal
      ensures healthy ==> ok
    {
      ok := Fprintf("," + p);
      assert old(contents) + ("," + (p + Commas(rest))) == (old(contents) + ("," + p)) + Commas(rest);
    }
  }

  /** BmEscapeTok(tok, sizeof(tok), f) as fprintf prints it. */
  method Escaped(f: text, tok: array<char>) returns (p: string)
    requires tok.Length == ESCAPED_SIZE
    modifies tok
    ensures p == Piece(f)
  {
    BmEscapeTok(tok, f);
    StrOfBuffer(tok, Piece(f));
    StrOfText(Piece(f));
    p := StrOf(tok[..]);
  }

  method PutEscaped(f: text, tok: array<char>, out: TextFile, ghost rest: Texts, ghost goal: string) returns (ok: bool)
    requires tok.Length == ESCAPED_SIZE && out.contents + Commas(Cons(Piece(f), rest)) == goal
    modifies tok, out
    ensures ok ==> out.contents + Commas(rest) == goal
    ensures out.contents <= goal
    ensures out.healthy ==> ok
  {
    var p := Escaped(f, tok);
    ok := out.Put(p, rest, goal);
  }

  method WriteFields1To6(b: Fields<text>, out: TextFile, savePassword: bool, codec: Codec, tok: array<char>, ghost rest: Texts, ghost goal: string)
      returns (ok: bool)
    requires tok.Length == ESCAPED_SIZE
    requires goal == out.contents + (b.bookmarkName + Commas(Cons(Piece(b.name), Cons(Piece(b.user),
                       Cons(PassText(b, savePassword, codec), Cons(Piece(b.acct), Cons(Piece(b.dir), rest)))))))
    modifies tok, out
    ensures ok ==> out.contents + Commas(rest) == goal
    ensures out.contents <= goal
    ensures out.healthy ==> ok
  {
    ghost var t6 := Cons(Piece(b.dir), rest);
    ghost var t5 := Cons(Piece(b.acct), t6);
    ghost var t4 := Cons(PassText(b, savePassword, codec), t5);
    ghost var t3 := Cons(Piece(b.user), t4);
    ghost var t2 := Cons(Piece(b.name), t3);
    assert out.contents + (b.bookmarkName + Commas(t2)) == (out.contents + b.bookmarkName) + Commas(t2);
    ok := out.Fprintf(b.bookmarkName);
    if !ok { return; }
    ok := PutEscaped(b.name, tok, out, t3, goal);
    if !ok { return; }
    ok := PutEscaped(b.user, tok, out, t4, goal);
    if !ok { return; }
    if b.pass != "" && savePassword {
      ok := out.Put(PASSWORD_MAGIC + codec.to(b.pass), t5, goal);
    } else {
      ok := out.Put("", t5, goal);
    }
    if !ok { return; }
    ok := PutEscaped(b.acct, tok, out, t6, goal);
    if !ok { return; }
    ok := PutEscaped(b.dir, tok, out, rest, goal);
  }

  method WriteFields7To13(b: Fields<text>, out: TextFile, ghost goal: string) returns (ok: bool)
    requires InRange(b) && goal == out.contents + Commas(Fields7To22(b))
    modifies out
    ensures ok ==> out.contents + Commas(Fields14To22(b)) == goal
    ensures out.contents <= goal
    ensures out.healthy ==> ok
  {
    ghost var t13 := Cons(Signed(b.isUnix), Fields14To22(b));
    ghost var t12 := Cons(Signed(b.hasPASV), t13);
    ghost var t11 := Cons(Signed(b.hasMDTM), t12);
    ghost var t10 := Cons(Signed(b.hasSIZE), t11);
    ghost var t9 := Cons(Unsigned(b.lastCall), t10);
    ghost var t8 := Cons(Digits(b.port), t9);
    ok := out.Put([b.xferType], t8, goal);
    if !ok { return; }
    ok := out.Put(Digits(b.port), t9, goal);
    if !ok { return; }
    ok := out.Put(Unsigned(b.lastCall), t10, goal);
    if !ok { return; }
    ok := out.Put(Signed(b.hasSIZE), t11, goal);
    if !ok { return; }
    ok := out.Put(Signed(b.hasMDTM), t12, goal);
    if !ok { return; }
    ok := out.Put(Signed(b.hasPASV), t13, goal);
    if !ok { return; }
    ok := out.Put(Signed(b.isUnix), Fields14To22(b), goal);
  }

  /** Fields 16 to 19 are not used. */
  method WriteEmptyFields(out: TextFile, ghost rest: Texts, ghost goal: string) returns (ok: bool)
    requires goal == out.contents + Commas(Cons("", Cons("", Cons("", Cons("", rest)))))
    modifies out
    ensures ok ==> out.contents + Commas(rest) == goal
    ensures out.contents <= goal
    ensures out.healthy ==> ok
  {
    ghost var t19 := Cons("", rest);
    ghost var t18 := Cons("", t19);
    ghost var t17 := Cons("", t18);
    ok := out.Put("", t17, goal);
    if !ok { return; }
    ok := out.Put("", t18, goal);
    if !ok { return; }
    ok := out.Put("", t19, goal);
    if !ok { return; }
    ok := out.Put("", rest, goal);
  }

  method WriteFields14To22(b: Fields<text>, out: TextFile, tok: array<char>, ghost goal: string) returns (ok: bool)
    requires tok.Length == ESCAPED_SIZE && goal == out.contents + Commas(Fields14To22(b))
    modifies tok, out
    ensures ok ==> out.contents == goal
    ensures out.contents <= goal
    ensures out.healthy ==> ok
  {
    ghost var t22 := Cons(Piece(b.ldir), Nil);
    ghost var t21 := Cons(Signed(b.hasUTIME), t22);
    ghost var t20 := Cons([b.xferMode], t21);
    ghost var t16 := Cons("", Cons("", Cons("", Cons("", t20))));
    ghost var t15 := Cons(Piece(b.comment), t16);
    ok := out.Put(b.lastIP, t15, goal);
    if !ok { return; }
    ok := PutEscaped(b.comment, tok, out, t16, goal);
    if !ok { return; }
    ok := WriteEmptyFields(out, t20, goal);
    if !ok { return; }
    ok := out.Put([b.xferMode], t21, goal);
    if !ok { return; }
    ok := out.Put(Signed(b.hasUTIME), t22, goal);
    if !ok { return; }
    ok := PutEscaped(b.ldir, tok, out, Nil, goal);
    assert out.contents + Commas(Nil) == out.contents;
  }

  /** WriteBmLine. */
  method WriteBmLine(b: Fields<text>, out: TextFile, savePassword: bool, codec: Codec) returns (r: int)
    requires InRange(b)
    modifies out
    ensures r == 0 || r == -1
    ensures r == 0 ==> out.contents == old(out.contents) + Line(b, savePassword, codec) + "\n"
    ensures r == -1 ==> !out.healthy && out.contents <= old(out.contents) + Line(b, savePassword, codec) + "\n"
  {
    var tok := new char[ESCAPED_SIZE];
    ghost var goal := out.contents + Line(b, savePassword, codec);
    var ok := WriteFields1To6(b, out, savePassword, codec, tok, Fields7To22(b), goal);
    if ok {
      ok := WriteFields7To13(b, out, goal);
    }
    if ok {
      ok := WriteFields14To22(b, out, tok, goal);
    }
    assert goal <= goal + "\n" && out.contents <= goal + "\n";
    if !ok { return -1; }
    ok := out.Fprintf("\n");
    if !ok { return -1; }
    ok := out.Flush();
    r := if ok then 0 else -1;
  }

  // ---- reading it back ----

  predicate AllWhole(ps: Texts) {
    ps.Cons? ==> Whole(ps.head) && AllWhole(ps.tail)
  }

  function TokensOf(ps: Texts): Texts {
    match ps
    case Nil => Nil
    case Cons(p, tail) => if p == "" && tail == Nil then Nil else Cons(Token(p), TokensOf(tail))
  }

  /** A line made of whole pieces is read piece by piece; an empty last one is not seen. */
  lemma {:induction false} LineIsRead(p: string, ps: Texts)
    requires AllWhole(Cons(p, ps))
    ensures Tokens(p + Commas(ps)) == TokensOf(Cons(p, ps))
    decreases ps
  {
    var line := p + Commas(ps);
    WholeIsRead(p, Commas(ps));
    match ps
    case Nil =>
      assert line == p && line[|line|..] == "";
    case Cons(q, tail) =>
      LineIsRead(q, tail);
      AfterComma(p, q + Commas(tail));
  }

  lemma AfterComma(p: string, rest: string)
    ensures (p + ("," + rest))[|p| + 1..] == rest
  {
  }

  lemma PieceIsWhole(f: text)
    ensures Whole(Piece(f)) && Token(Piece(f)) == Clipped(TOKEN_SIZE, Retained(ESCAPED_SIZE - 1, 0, f))
  {
    var k := Retained(ESCAPED_SIZE - 1, 0, f);
    DecodeEscape(k);
    StrOfText(if |k| < TOKEN_SIZE then k else k[..TOKEN_SIZE - 1]);
  }

  // ---- storing the tokens of a line ----

  lemma StoreThree(i: nat, t1: string, t2: string, t3: string, ts: Texts, b: Fields<string>, r: int, stale: int)
    requires 1 <= i <= 20
    ensures StoreAll(i, Cons(t1, Cons(t2, Cons(t3, ts))), b, r, stale)
         == StoreAll(i + 3, ts, Assigned(i + 2, t3, Assigned(i + 1, t2, Assigned(i, t1, b, stale), stale), stale),
                     Version(i + 2, Version(i + 1, Version(i, r))), stale)
  {
    var b1 := Assigned(i, t1, b, stale);
    assert StoreAll(i, Cons(t1, Cons(t2, Cons(t3, ts))), b, r, stale)
        == StoreAll(i + 1, Cons(t2, Cons(t3, ts)), b1, Version(i, r), stale);
  }

  lemma Store1To6(t1: string, t2: string, t3: string, t4: string, t5: string, t6: string, ts: Texts, b: Fields<string>, stale: int)
    ensures StoreAll(1, Cons(t1, Cons(t2, Cons(t3, Cons(t4, Cons(t5, Cons(t6, ts)))))), b, -1, stale)
         == StoreAll(7, ts, b.(bookmarkName := Clipped(16, t1), name := Clipped(64, t2), user := Clipped(64, t3),
                               pass := Clipped(64, t4), acct := Clipped(64, t5), dir := Clipped(160, t6)), 0, stale)
  {
    var b3 := b.(bookmarkName := Clipped(16, t1), name := Clipped(64, t2), user := Clipped(64, t3));
    StoreThree(1, t1, t2, t3, Cons(t4, Cons(t5, Cons(t6, ts))), b, -1, stale);
    StoreThree(4, t4, t5, t6, ts, b3, -1, stale);
  }

  lemma Store7To12(t7: string, t8: string, t9: string, t10: string, t11: string, t12: string, ts: Texts, b: Fields<string>, stale: int)
    requires t7 != "" && t8 != ""
    ensures StoreAll(7, Cons(t7, Cons(t8, Cons(t9, Cons(t10, Cons(t11, Cons(t12, ts)))))), b, 0, stale)
         == StoreAll(13, ts, b.(xferType := t7[0], port := AtoU(t8), lastCall := ReadHex(t9, stale),
                                hasSIZE := Atoi(t10), hasMDTM := Atoi(t11), hasPASV := Atoi(t12)), 0, stale)
  {
    var b9 := b.(xferType := t7[0], port := AtoU(t8), lastCall := ReadHex(t9, stale));
    StoreThree(7, t7, t8, t9, Cons(t10, Cons(t11, Cons(t12, ts))), b, 0, stale);
    StoreThree(10, t10, t11, t12, ts, b9, 0, stale);
  }

  lemma Store13To18(t13: string, t14: string, t15: string, t16: string, t17: string, t18: string, ts: Texts, b: Fields<string>, stale: int)
    ensures StoreAll(13, Cons(t13, Cons(t14, Cons(t15, Cons(t16, Cons(t17, Cons(t18, ts)))))), b, 0, stale)
         == StoreAll(19, ts, b.(isUnix := Atoi(t13), lastIP := Clipped(32, t14), comment := Clipped(128, t15)), 3, stale)
  {
    var b15 := b.(isUnix := Atoi(t13), lastIP := Clipped(32, t14), comment := Clipped(128, t15));
    StoreThree(13, t13, t14, t15, Cons(t16, Cons(t17, Cons(t18, ts))), b, 0, stale);
    StoreThree(16, t16, t17, t18, ts, b15, 3, stale);
  }

  /** An empty last field leaves what was there, and the line counts as one of version 7. */
  lemma Store19To22(t19: string, t20: string, t21: string, last: Texts, b: Fields<string>, stale: int)
    requires t20 != "" && (last == Nil || last.tail == Nil)
    ensures StoreAll(19, Cons(t19, Cons(t20, Cons(t21, last))), b, 3, stale)
         == if last == Nil then (b.(xferMode := t20[0], hasUTIME := Atoi(t21)), 7)
            else (b.(xferMode := t20[0], hasUTIME := Atoi(t21), ldir := Clipped(160, last.head)), 8)
  {
    StoreThree(19, t19, t20, t21, last, b, 3, stale);
  }

  // ---- the round trip ----

  /** A piece that is read as it stands. */
  predicate ReadsAs(p: string, t: string) {
    Whole(p) && Token(p) == t
  }

  lemma PlainReadsAs(p: text)
    requires Plain(p) && |p| < TOKEN_SIZE
    ensures ReadsAs(p, p)
  {
    PlainIsWhole(p);
    StrOfText(p);
  }

  lemma DigitsReadAs(n: nat)
    requires n < TWO_64
    ensures ReadsAs(Digits(n), Digits(n))
  {
    DigitsPlain(n);
    NumbersShort(n);
    PlainReadsAs(Digits(n));
  }

  lemma SignedReadsAs(n: int)
    requires IsInt(n)
    ensures ReadsAs(Signed(n), Signed(n)) && Atoi(Signed(n)) == n
  {
    AtoiOfSigned(n);
    if n < 0 {
      DigitsPlain(-n);
      NumbersShort(-n);
      PlainReadsAs(Signed(n));
    } else {
      DigitsReadAs(n);
    }
  }

  lemma LetterReadsAs(c: char)
    requires IsLetter(c)
    ensures ReadsAs([c], [c])
  {
    var l: letter := c;
    PlainReadsAs([l]);
  }

  /** A character that can stand in a line for itself. */
  predicate IsLetter(c: char) {
    0 < c as int < 128 && !Special(c)
  }

  lemma Push(p: string, t: string, ps: Texts)
    requires ReadsAs(p, t) && AllWhole(ps) && ps != Nil
    ensures AllWhole(Cons(p, ps)) && TokensOf(Cons(p, ps)) == Cons(t, TokensOf(ps))
  {
  }

  lemma Read16To22(b: Fields<text>, ps: Texts)
    requires IsLetter(b.xferMode) && IsInt(b.hasUTIME)
    requires ps == Cons("", Cons("", Cons("", Cons("", Cons([b.xferMode], Cons(Signed(b.hasUTIME), Cons(Piece(b.ldir), Nil)))))))
    ensures AllWhole(ps)
    ensures TokensOf(ps) == Cons("", Cons("", Cons("", Cons("",
              Cons([b.xferMode], Cons(Signed(b.hasUTIME), if Piece(b.ldir) == "" then Nil else Cons(Token(Piece(b.ldir)), Nil)))))))
  {
    var p22 := Cons(Piece(b.ldir), Nil);
    var p21 := Cons(Signed(b.hasUTIME), p22);
    var p20 := Cons([b.xferMode], p21);
    PieceIsWhole(b.ldir);
    SignedReadsAs(b.hasUTIME);
    Push(Signed(b.hasUTIME), Signed(b.hasUTIME), p22);
    LetterReadsAs(b.xferMode);
    Push([b.xferMode], [b.xferMode], p21);
    PlainReadsAs("");
    Push("", "", p20);
    Push("", "", Cons("", p20));
    Push("", "", Cons("", Cons("", p20)));
    Push("", "", Cons("", Cons("", Cons("", p20))));
  }

  lemma Read10To13(b: Fields<text>, ps: Texts)
    requires InRange(b) && AllWhole(ps) && ps != Nil
    ensures AllWhole(Cons(Signed(b.hasSIZE), Cons(Signed(b.hasMDTM), Cons(Signed(b.hasPASV), Cons(Signed(b.isUnix), ps)))))
    ensures TokensOf(Cons(Signed(b.hasSIZE), Cons(Signed(b.hasMDTM), Cons(Signed(b.hasPASV), Cons(Signed(b.isUnix), ps)))))
         == Cons(Signed(b.hasSIZE), Cons(Signed(b.hasMDTM), Cons(Signed(b.hasPASV), Cons(Signed(b.isUnix), TokensOf(ps)))))
  {
    var p13 := Cons(Signed(b.isUnix), ps);
    var p12 := Cons(Signed(b.hasPASV), p13);
    var p11 := Cons(Signed(b.hasMDTM), p12);
    SignedReadsAs(b.isUnix);
    Push(Signed(b.isUnix), Signed(b.isUnix), ps);
    SignedReadsAs(b.hasPASV);
    Push(Signed(b.hasPASV), Signed(b.hasPASV), p13);
    SignedReadsAs(b.hasMDTM);
    Push(Signed(b.hasMDTM), Signed(b.hasMDTM), p12);
    SignedReadsAs(b.hasSIZE);
    Push(Signed(b.hasSIZE), Signed(b.hasSIZE), p11);
  }

  lemma Read7To9(b: Fields<text>, ps: Texts)
    requires InRange(b) && IsLetter(b.xferType) && AllWhole(ps) && ps != Nil
    ensures AllWhole(Cons([b.xferType], Cons(Digits(b.port), Cons(Unsigned(b.lastCall), ps))))
    ensures TokensOf(Cons([b.xferType], Cons(Digits(b.port), Cons(Unsigned(b.lastCall), ps))))
         == Cons([b.xferType], Cons(Digits(b.port), Cons(Unsigned(b.lastCall), TokensOf(ps))))
  {
    var p9 := Cons(Unsigned(b.lastCall), ps);
    var p8 := Cons(Digits(b.port), p9);
    DigitsReadAs(if b.lastCall < 0 then b.lastCall + TWO_64 else b.lastCall);
    Push(Unsigned(b.lastCall), Unsigned(b.lastCall), ps);
    DigitsReadAs(b.port);
    Push(Digits(b.port), Digits(b.port), p9);
    LetterReadsAs(b.xferType);
    Push([b.xferType], [b.xferType], p8);
  }

  lemma Read2To6(b: Fields<text>, pass: text, ps: Texts)
    requires Plain(pass) && |pass| < TOKEN_SIZE && AllWhole(ps) && ps != Nil
    ensures AllWhole(Cons(Piece(b.name), Cons(Piece(b.user), Cons(pass, Cons(Piece(b.acct), Cons(Piece(b.dir), ps))))))
    ensures TokensOf(Cons(Piece(b.name), Cons(Piece(b.user), Cons(pass, Cons(Piece(b.acct), Cons(Piece(b.dir), ps))))))
         == Cons(Token(Piece(b.name)), Cons(Token(Piece(b.user)), Cons(pass, Cons(Token(Piece(b.acct)), Cons(Token(Piece(b.dir)), TokensOf(ps))))))
  {
    var p6 := Cons(Piece(b.dir), ps);
    var p5 := Cons(Piece(b.acct), p6);
    var p4 := Cons(pass, p5);
    var p3 := Cons(Piece(b.user), p4);
    PieceIsWhole(b.dir);
    Push(Piece(b.dir), Token(Piece(b.dir)), ps);
    PieceIsWhole(b.acct);
    Push(Piece(b.acct), Token(Piece(b.acct)), p6);
    PlainReadsAs(pass);
    Push(pass, pass, p5);
    PieceIsWhole(b.user);
    Push(Piece(b.user), Token(Piece(b.user)), p4);
    PieceIsWhole(b.name);
    Push(Piece(b.name), Token(Piece(b.name)), p3);
  }

  /** The strings fit their arrays; what is not escaped needs no escaping. */
  predicate Storable(b: Fields<text>) {
    && |b.bookmarkName| < 16 && |b.name| < 64 && |b.user| < 64 && |b.pass| < 64 && |b.acct| < 64
    && |b.dir| < 160 && |b.ldir| < 160 && |b.lastIP| < 32 && |b.comment| < 128
    && InRange(b) && IsLetter(b.xferType) && IsLetter(b.xferMode) && Plain(b.bookmarkName) && Plain(b.lastIP)
  }

  /** What the reader makes of an escaped field of `size` characters. */
  function Back(size: nat, f: text): string
    requires size > 0
  {
    Clipped(size, Token(Piece(f)))
  }

  function LastTokens(b: Fields<text>): Texts {
    if Piece(b.ldir) == "" then Nil else Cons(Token(Piece(b.ldir)), Nil)
  }

  function Tokens13To22(b: Fields<text>): Texts {
    Cons(Signed(b.isUnix), Cons(b.lastIP, Cons(Token(Piece(b.comment)), Cons("", Cons("", Cons("", Cons("",
      Cons([b.xferMode], Cons(Signed(b.hasUTIME), LastTokens(b))))))))))
  }

  function Tokens7To22(b: Fields<text>): Texts
    requires InRange(b)
  {
    Cons([b.xferType], Cons(Digits(b.port), Cons(Unsigned(b.lastCall),
      Cons(Signed(b.hasSIZE), Cons(Signed(b.hasMDTM), Cons(Signed(b.hasPASV), Tokens13To22(b)))))))
  }

  lemma Read14To22(b: Fields<text>)
    requires Storable(b)
    ensures AllWhole(Fields14To22(b)) && Cons(Signed(b.isUnix), TokensOf(Fields14To22(b))) == Tokens13To22(b)
  {
    var p16 := Fields14To22(b).tail.tail;
    Read16To22(b, p16);
    PieceIsWhole(b.comment);
    Push(Piece(b.comment), Token(Piece(b.comment)), p16);
    PlainReadsAs(b.lastIP);
    Push(b.lastIP, b.lastIP, Cons(Piece(b.comment), p16));
  }

  lemma Read7To22(b: Fields<text>)
    requires Storable(b)
    ensures AllWhole(Fields7To22(b)) && TokensOf(Fields7To22(b)) == Tokens7To22(b)
  {
    Read14To22(b);
    Read10To13(b, Fields14To22(b));
    Read7To9(b, Fields7To22(b).tail.tail.tail);
  }

  lemma ReadLine(b: Fields<text>, savePassword: bool, codec: Codec)
    requires Storable(b) && Plain(PassText(b, savePassword, codec)) && |PassText(b, savePassword, codec)| < TOKEN_SIZE
    ensures Tokens(Line(b, savePassword, codec))
         == Cons(b.bookmarkName, Cons(Token(Piece(b.name)), Cons(Token(Piece(b.user)), Cons(PassText(b, savePassword, codec),
              Cons(Token(Piece(b.acct)), Cons(Token(Piece(b.dir)), Tokens7To22(b)))))))
  {
    Read7To22(b);
    Read2To6(b, PassText(b, savePassword, codec), Fields7To22(b));
    PlainReadsAs(b.bookmarkName);
    Push(b.bookmarkName, b.bookmarkName, Fields2To22(b, savePassword, codec));
    LineIsRead(b.bookmarkName, Fields2To22(b, savePassword, codec));
  }

  /** The record a written line is read as, field by field. */
  function ReadBack(b: Fields<text>, pass: string, stale: int): Fields<string>
    requires InRange(b)
  {
    Fields(b.bookmarkName, Back(64, b.name), Back(64, b.user), Clipped(64, pass), Back(64, b.acct), Back(160, b.dir), Back(160, b.ldir),
           b.xferType, b.port, ReadHex(Unsigned(b.lastCall), stale),
           b.hasSIZE, b.hasMDTM, b.hasPASV, b.isUnix, b.lastIP, Back(128, b.comment), b.xferMode, b.hasUTIME)
  }

  lemma Store13To22(b: Fields<text>, c: Fields<string>, stale: int)
    requires Storable(b) && c.ldir == ""
    ensures StoreAll(13, Tokens13To22(b), c, 0, stale)
         == (c.(isUnix := b.isUnix, lastIP := b.lastIP, comment := Back(128, b.comment),
                xferMode := b.xferMode, hasUTIME := b.hasUTIME, ldir := Back(160, b.ldir)),
             if b.ldir == "" then 7 else 8)
  {
    var t := Token(Piece(b.comment));
    Store13To18(Signed(b.isUnix), b.lastIP, t, "", "", "", Cons("", Cons([b.xferMode], Cons(Signed(b.hasUTIME), LastTokens(b)))), c, stale);
    SignedReadsAs(b.isUnix);
    SignedReadsAs(b.hasUTIME);
    Store19To22("", [b.xferMode], Signed(b.hasUTIME), LastTokens(b),
                c.(isUnix := b.isUnix, lastIP := b.lastIP, comment := Back(128, b.comment)), stale);
    EmptyPiece(b.ldir);
  }

  lemma EmptyPiece(f: text)
    ensures Piece(f) == "" <==> f == ""
    ensures f == "" ==> Back(160, f) == ""
  {
  }

  lemma Store7To22(b: Fields<text>, c: Fields<string>, stale: int)
    requires Storable(b) && c.ldir == ""
    ensures StoreAll(7, Tokens7To22(b), c, 0, stale)
         == (c.(xferType := b.xferType, port := b.port, lastCall := ReadHex(Unsigned(b.lastCall), stale),
                hasSIZE := b.hasSIZE, hasMDTM := b.hasMDTM, hasPASV := b.hasPASV,
                isUnix := b.isUnix, lastIP := b.lastIP, comment := Back(128, b.comment),
                xferMode := b.xferMode, hasUTIME := b.hasUTIME, ldir := Back(160, b.ldir)),
             if b.ldir == "" then 7 else 8)
  {
    Store7To12([b.xferType], Digits(b.port), Unsigned(b.lastCall), Signed(b.hasSIZE), Signed(b.hasMDTM), Signed(b.hasPASV),
               Tokens13To22(b), c, stale);
    AtoUOfDigits(b.port);
    SignedReadsAs(b.hasSIZE);
    SignedReadsAs(b.hasMDTM);
    SignedReadsAs(b.hasPASV);
    var c12 := c.(xferType := b.xferType, port := b.port, lastCall := ReadHex(Unsigned(b.lastCall), stale),
                  hasSIZE := b.hasSIZE, hasMDTM := b.hasMDTM, hasPASV := b.hasPASV);
    Store13To22(b, c12, stale);
  }

  lemma LineIsStored(b: Fields<text>, savePassword: bool, codec: Codec, stale: int)
    requires Storable(b) && Plain(PassText(b, savePassword, codec)) && |PassText(b, savePassword, codec)| < TOKEN_SIZE
    ensures StoreAll(1, Tokens(Line(b, savePassword, codec)), DEFAULTS, -1, stale)
         == (ReadBack(b, PassText(b, savePassword, codec), stale), if b.ldir == "" then 7 else 8)
  {
    var pass := PassText(b, savePassword, codec);
    ReadLine(b, savePassword, codec);
    Store1To6(b.bookmarkName, Token(Piece(b.name)), Token(Piece(b.user)), pass, Token(Piece(b.acct)), Token(Piece(b.dir)),
              Tokens7To22(b), DEFAULTS, stale);
    var c: Fields<string> := DEFAULTS.(bookmarkName := b.bookmarkName, name := Back(64, b.name), user := Back(64, b.user),
                                       pass := Clipped(64, pass), acct := Back(64, b.acct), dir := Back(160, b.dir));
    Store7To22(b, c, stale);
  }

  /** Neither the escape buffer nor the token buffer is too small for a field. */
  predicate FitsBuffers(f: text) {
    |f| < TOKEN_SIZE && |EscapeAll(f)| < ESCAPED_SIZE
  }

  lemma FieldBack(size: nat, f: text)
    requires |f| < size
    ensures Back(size, f) == f <==> FitsBuffers(f)
    ensures |f| < 64 ==> FitsBuffers(f)
  {
    FieldSurvives(f);
    PieceIsWhole(f);
    var k := Retained(ESCAPED_SIZE - 1, 0, f);
    DecodeEscape(k);
    EscapeAtMostTriples(f);
  }

  /** A directory of 128 letters is cut to 127. */
  lemma LongDirectoryLost()
    ensures var dir: text := seq(128, i => 'a'); Back(160, dir) != dir
  {
    FieldBack(160, seq(128, i => 'a'));
  }

  lemma {:induction false} EscapeAtMostTriples(f: text)
    ensures |EscapeAll(f)| <= 3 * |f|
  {
    if f != "" {
      EscapeAtMostTriples(f[1..]);
    }
  }

  /** What becomes of the password on the way through the file. */
  function PassBack(b: Fields<text>, savePassword: bool, codec: Codec): string {
    PasswordOf(codec, Clipped(64, PassText(b, savePassword, codec)))
  }

  /** A saved password survives if its encoding fits behind the mark in 63 characters. */
  lemma PasswordRoundTrip(b: Fields<text>, codec: Codec)
    requires codec.from(codec.to(b.pass)) == b.pass && |b.pass| < 64
    requires |PASSWORD_MAGIC| + |codec.to(b.pass)| < 64
    ensures PassBack(b, true, codec) == b.pass && PassBack(b, false, codec) == ""
  {
    if b.pass != "" {
      assert (PASSWORD_MAGIC + codec.to(b.pass))[|PASSWORD_MAGIC|..] == codec.to(b.pass);
    }
  }

  /** The record comes back, but for its password, exactly when its three long fields fit the buffers and
      the time of the last call has one digit (or is -1). */
  lemma BookmarkRoundTrip(b: Fields<text>, savePassword: bool, codec: Codec, stale: int)
    requires Storable(b) && Plain(PassText(b, savePassword, codec)) && |PassText(b, savePassword, codec)| < TOKEN_SIZE
    ensures var (c, version) := Parsed(Line(b, savePassword, codec), codec, stale);
      && version == (if b.ldir == "" then 7 else 8)
      && (c == SaveFor(b, PassBack(b, savePassword, codec))
          <==> FitsBuffers(b.dir) && FitsBuffers(b.ldir) && FitsBuffers(b.comment) && (0 <= b.lastCall < 10 || b.lastCall == -1))
  {
    LineIsStored(b, savePassword, codec, stale);
    FieldBack(64, b.name);
    FieldBack(64, b.user);
    FieldBack(64, b.acct);
    FieldBack(160, b.dir);
    FieldBack(160, b.ldir);
    FieldBack(128, b.comment);
    LastCallSurvives(b.lastCall, stale);
  }

  /** The same bookmark but for its password. */
  function SaveFor(b: Fields<text>, pass: string): Fields<string> {
    var c: Fields<string> := b;
    c.(pass := pass)
  }
}
