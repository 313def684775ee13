/** Lines of the bookmarks file: WriteBmLine and ParseHostLine (ncftp/bookmark.c). */
module Bookmarks {
  import opened Basics
  import opened BookmarkText
  import opened BookmarkNumbers

  // ---- the record ----

  const UNKNOWN := -1
  const DEFAULT_FTP_PORT := 21
  const PASSWORD_MAGIC: text := "*encoded*"

  /** A bookmark, its strings from S. */
  datatype Fields<+S> = Fields(
    bookmarkName: S, name: S, user: S, pass: S, acct: S, dir: S, ldir: S,
    xferType: char, port: nat, lastCall: int,
    hasSIZE: int, hasMDTM: int, hasPASV: int, isUnix: int,
    lastIP: S, comment: S, xferMode: char, hasUTIME: int)

  const DEFAULTS: Fields<string> :=
    Fields("", "", "", "", "", "", "", 'I', 0, 0, UNKNOWN, UNKNOWN, UNKNOWN, 1, "", "", 'S', UNKNOWN)

  /** The base-64 routines, which are not modelled. */
  datatype Codec = Codec(to: text -> text, from: string -> string)

  /** A buffer up to its first NUL. */
  function StrOf(t: string): string {
    if t == "" || t[0] == '\0' then "" else [t[0]] + StrOf(t[1..])
  }

  lemma {:induction false} StrOfText(f: text)
    ensures StrOf(f) == f
  {
    if f != "" {
      StrOfText(f[1..]);
      assert [f[0]] + f[1..] == f;
    }
  }

  lemma {:induction false} StrOfFilled(t: string, more: string)
    ensures StrOf(t + ['\0'] + more) == StrOf(t)
  {
    if t == "" {
      assert (t + ['\0'] + more)[0] == '\0';
    } else {
      StrOfFilled(t[1..], more);
      assert (t + ['\0'] + more)[1..] == t[1..] + ['\0'] + more;
    }
  }

  lemma StrOfBuffer(buf: array<char>, t: string)
    requires Filled(buf, t)
    ensures StrOf(buf[..]) == StrOf(t)
  {
    var more := buf[|t| + 1..];
    assert buf[..] == buf[..|t|] + [buf[|t|]] + more;
    StrOfFilled(t, more);
  }

  // ---- what a line says ----

  /** Token `i` of a line goes into its field, cut to the field's size. */
  function Assigned(i: nat, tok: string, b: Fields<string>, stale: int): Fields<string> {
    if i == 1 then b.(bookmarkName := Clipped(16, tok))
    else if i == 2 then b.(name := Clipped(64, tok))
    else if i == 3 then b.(user := Clipped(64, tok))
    else if i == 4 then b.(pass := Clipped(64, tok))
    else if i == 5 then b.(acct := Clipped(64, tok))
    else if i == 6 then b.(dir := Clipped(160, tok))
    else if i == 7 then (if tok != "" then b.(xferType := tok[0]) else b)
    else if i == 8 then b.(port := if tok == "" then DEFAULT_FTP_PORT else AtoU(tok))
    else if i == 9 then b.(lastCall := ReadHex(tok, stale))
    else if i == 10 then b.(hasSIZE := Atoi(tok))
    else if i == 11 then b.(hasMDTM := Atoi(tok))
    else if i == 12 then b.(hasPASV := Atoi(tok))
    else if i == 13 then b.(isUnix := Atoi(tok))
    else if i == 14 then b.(lastIP := Clipped(32, tok))
    else if i == 15 then b.(comment := Clipped(128, tok))
    else if i == 20 then b.(xferMode := if tok == "" then '\0' else tok[0])
    else if i == 21 then b.(hasUTIME := Atoi(tok))
    else if i == 22 then b.(ldir := Clipped(160, tok))
    else b
  }

  /** The file version whose last field has been seen; -1 while fields are missing. */
  function Version(i: nat, result: int): int {
    if i == 6 then 0
    else if i == 13 then 3
    else if i == 20 then 7
    else if i == 22 then 8
    else result
  }

  function Token(s: string): string {
    StrOf(Clipped(TOKEN_SIZE, Decoded(s)))
  }

  datatype Texts = Nil | Cons(head: string, tail: Texts)

  /** The tokens of a line. What is left when nothing follows a comma is not one. */
  function Tokens(line: string): Texts {
    if line == "" then Nil else Cons(Token(line), Tokens(line[Used(line)..]))
  }

  function StoreAll(i: nat, toks: Texts, b: Fields<string>, result: int, stale: int): (Fields<string>, int)
    decreases toks
  {
    if toks == Nil then (b, result)
    else if i > 22 then (b, 99)
    else StoreAll(i + 1, toks.tail, Assigned(i, toks.head, b, stale), Version(i, result), stale)
  }

  function Count(toks: Texts): nat {
    if toks == Nil then 0 else 1 + Count(toks.tail)
  }

  function Nth(toks: Texts, k: nat): string
    requires k < Count(toks)
  {
    if k == 0 then toks.head else Nth(toks.tail, k - 1)
  }

  datatype Value = Words(words: string) | Number(number: int) | Letter(letter: char) | Unused

  /** The field that token `k` is for. */
  function Field(k: nat, b: Fields<string>): Value {
    if k == 1 then Words(b.bookmarkName)
    else if k == 2 then Words(b.name)
    else if k == 3 then Words(b.user)
    else if k == 4 then Words(b.pass)
    else if k == 5 then Words(b.acct)
    else if k == 6 then Words(b.dir)
    else if k == 7 then Letter(b.xferType)
    else if k == 8 then Number(b.port)
    else if k == 9 then Number(b.lastCall)
    else if k == 10 then Number(b.hasSIZE)
    else if k == 11 then Number(b.hasMDTM)
    else if k == 12 then Number(b.hasPASV)
    else if k == 13 then Number(b.isUnix)
    else if k == 14 then Words(b.lastIP)
    else if k == 15 then Words(b.comment)
    else if k == 20 then Letter(b.xferMode)
    else if k == 21 then Number(b.hasUTIME)
    else if k == 22 then Words(b.ldir)
    else Unused
  }

  /** Each token changes its own field only. */
  lemma FieldsApart(i: nat, k: nat, tok: string, b: Fields<string>, stale: int)
    ensures i != k ==> Field(k, Assigned(i, tok, b, stale)) == Field(k, b)
  {
  }

  /** And to a value that the other fields have no part in. */
  lemma FieldAlone(k: nat, tok: string, b: Fields<string>, c: Fields<string>, stale: int)
    requires Field(k, b) == Field(k, c)
    ensures Field(k, Assigned(k, tok, b, stale)) == Field(k, Assigned(k, tok, c, stale))
  {
  }

  lemma {:induction false} FieldStored(i: nat, toks: Texts, b: Fields<string>, result: int, stale: int, k: nat)
    requires 1 <= i <= 23 && k <= 22
    ensures Field(k, StoreAll(i, toks, b, result, stale).0) ==
            if i <= k < i + Count(toks) then Field(k, Assigned(k, Nth(toks, k - i), b, stale)) else Field(k, b)
    decreases toks
  {
    if toks != Nil && i <= 22 {
      var c := Assigned(i, toks.head, b, stale);
      FieldStored(i + 1, toks.tail, c, Version(i, result), stale, k);
      FieldsApart(i, k, toks.head, b, stale);
      if i < k < i + Count(toks) {
        FieldAlone(k, Nth(toks, k - i), b, c, stale);
      }
    }
  }

  /** The version of a line of `n` fields, as older programs wrote fewer. */
  function VersionOf(n: nat): int {
    if n > 22 then 99 else if n == 22 then 8 else if n >= 20 then 7 else if n >= 13 then 3 else if n >= 6 then 0 else -1
  }

  lemma {:induction false} VersionStored(i: nat, toks: Texts, b: Fields<string>, stale: int)
    requires 1 <= i <= 23
    ensures StoreAll(i, toks, b, VersionOf(i - 1), stale).1 == VersionOf(i - 1 + Count(toks))
    decreases toks
  {
    if toks != Nil && i <= 22 {
      VersionStored(i + 1, toks.tail, Assigned(i, toks.head, b, stale), stale);
    }
  }

  /** Every field of a line, whatever its number of tokens, comes from its own token or, if the line does not reach
      that, keeps its default; the result tells how far the line got. */
  lemma LineFields(line: string, stale: int, k: nat)
    requires 1 <= k <= 22
    ensures var (b, version) := StoreAll(1, Tokens(line), DEFAULTS, -1, stale);
      && Field(k, b) == (if k <= Count(Tokens(line)) then Field(k, Assigned(k, Nth(Tokens(line), k - 1), DEFAULTS, stale)) else Field(k, DEFAULTS))
      && version == VersionOf(Count(Tokens(line)))
  {
    FieldStored(1, Tokens(line), DEFAULTS, -1, stale, k);
    VersionStored(1, Tokens(line), DEFAULTS, stale);
  }

  /** The record, field by field, with the defaults of those that a line does not reach: up to the last call. */
  lemma LineRecordStart(line: string, stale: int)
    ensures var (b, _) := StoreAll(1, Tokens(line), DEFAULTS, -1, stale); var toks, n := Tokens(line), Count(Tokens(line));
      && b.bookmarkName == (if n >= 1 then Clipped(16, Nth(toks, 0)) else "")
      && b.name == (if n >= 2 then Clipped(64, Nth(toks, 1)) else "")
      && b.user == (if n >= 3 then Clipped(64, Nth(toks, 2)) else "")
      && b.pass == (if n >= 4 then Clipped(64, Nth(toks, 3)) else "")
      && b.acct == (if n >= 5 then Clipped(64, Nth(toks, 4)) else "")
      && b.dir == (if n >= 6 then Clipped(160, Nth(toks, 5)) else "")
      && b.xferType == (if n >= 7 && Nth(toks, 6) != "" then Nth(toks, 6)[0] else 'I')
      && b.port == (if n < 8 then 0 else if Nth(toks, 7) == "" then 21 else AtoU(Nth(toks, 7)))
      && b.lastCall == (if n >= 9 then ReadHex(Nth(toks, 8), stale) else 0)
  {
    LineFields(line, stale, 1);
    LineFields(line, stale, 2);
    LineFields(line, stale, 3);
    LineFields(line, stale, 4);
    LineFields(line, stale, 5);
    LineFields(line, stale, 6);
    LineFields(line, stale, 7);
    LineFields(line, stale, 8);
    LineFields(line, stale, 9);
  }

  /** And from there on. */
  lemma LineRecordRest(line: string, stale: int)
    ensures var (b, _) := StoreAll(1, Tokens(line), DEFAULTS, -1, stale); var toks, n := Tokens(line), Count(Tokens(line));
      && b.hasSIZE == (if n >= 10 then Atoi(Nth(toks, 9)) else -1)
      && b.hasMDTM == (if n >= 11 then Atoi(Nth(toks, 10)) else -1)
      && b.hasPASV == (if n >= 12 then Atoi(Nth(toks, 11)) else -1)
      && b.isUnix == (if n >= 13 then Atoi(Nth(toks, 12)) else 1)
      && b.lastIP == (if n >= 14 then Clipped(32, Nth(toks, 13)) else "")
      && b.comment == (if n >= 15 then Clipped(128, Nth(toks, 14)) else "")
      && b.xferMode == (if n < 20 then 'S' else if Nth(toks, 19) == "" then '\0' else Nth(toks, 19)[0])
      && b.hasUTIME == (if n >= 21 then Atoi(Nth(toks, 20)) else -1)
      && b.ldir == (if n >= 22 then Clipped(160, Nth(toks, 21)) else "")
  {
    LineFields(line, stale, 10);
    LineFields(line, stale, 11);
    LineFields(line, stale, 12);
    LineFields(line, stale, 13);
    LineFields(line, stale, 14);
    LineFields(line, stale, 15);
    LineFields(line, stale, 20);
    LineFields(line, stale, 21);
    LineFields(line, stale, 22);
  }

  function PasswordOf(codec: Codec, pass: string): string {
    if PASSWORD_MAGIC <= pass then Clipped(64, codec.from(pass[|PASSWORD_MAGIC|..])) else pass
  }

  function Parsed(line: string, codec: Codec, stale: int): (Fields<string>, int) {
    var (b, result) := StoreAll(1, Tokens(line), DEFAULTS, -1, stale);
    (b.(pass := PasswordOf(codec, b.pass)), result)
  }

  class Bookmark {
    var bookmarkName: string
    var name: string
    var user: string
    var pass: string
    var acct: string
    var dir: string
    var ldir: string
    var xferType: char
    var port: nat
    var lastCall: int
    var hasSIZE: int
    var hasMDTM: int
    var hasPASV: int
    var isUnix: int
    var lastIP: string
    var comment: string
    var xferMode: char
    var hasUTIME: int

    ghost function Contents(): Fields<string>
      reads this
    {
      Fields(bookmarkName, name, user, pass, acct, dir, ldir, xferType, port, lastCall,
             hasSIZE, hasMDTM, hasPASV, isUnix, lastIP, comment, xferMode, hasUTIME)
    }

    method SetBookmarkDefaults()
      modifies this
      ensures Contents() == DEFAULTS
    {
      ClearStrings();
      port, lastCall, isUnix := 0, 0, 1;
      xferType, xferMode := 'I', 'S';
      hasSIZE, hasMDTM, hasUTIME, hasPASV := UNKNOWN, UNKNOWN, UNKNOWN, UNKNOWN;
    }

    method ClearStrings()
      modifies `bookmarkName, `name, `user, `pass, `acct, `dir, `ldir, `lastIP, `comment
      ensures bookmarkName == name == user == pass == acct == dir == ldir == lastIP == comment == ""
    {
      bookmarkName, name, user, pass, acct := "", "", "", "", "";
      dir, ldir, lastIP, comment := "", "", "", "";
    }

    /** The switch of ParseHostLine; `stale` is what its uninitialised `L` holds. */
    method Store(i: nat, tok: string, r: int, stale: int) returns (result: int)
      requires 1 <= i <= 22
      modifies this
      ensures Contents() == Assigned(i, tok, old(Contents()), stale) && result == Version(i, r)
    {
      if i <= 6 {
        result := StoreLogin(i, tok, r, stale);
      } else if i <= 9 {
        result := StoreSite(i, tok, r, stale);
      } else if i <= 13 {
        result := StoreFeature(i, tok, r, stale);
      } else {
        result := StoreRest(i, tok, r, stale);
      }
    }

    method StoreLogin(i: nat, tok: string, r: int, stale: int) returns (result: int)
      requires 1 <= i <= 6
      modifies `bookmarkName, `name, `user, `pass, `acct, `dir
      ensures Contents() == Assigned(i, tok, old(Contents()), stale) && result == Version(i, r)
    {
      result := r;
      match i {
        case 1 => bookmarkName := Clipped(16, tok);
        case 2 => name := Clipped(64, tok);
        case 3 => user := Clipped(64, tok);
        case 4 => pass := Clipped(64, tok);
        case 5 => acct := Clipped(64, tok);
        case 6 => dir := Clipped(160, tok); result := 0;
      }
    }

    method StoreSite(i: nat, tok: string, r: int, stale: int) returns (result: int)
      requires 7 <= i <= 9
      modifies `xferType, `port, `lastCall
      ensures Contents() == Assigned(i, tok, old(Contents()), stale) && result == Version(i, r)
    {
      result := r;
      match i {
        case 7 => if tok != "" { xferType := tok[0]; }
        case 8 => port := if tok == "" then DEFAULT_FTP_PORT else AtoU(tok);
        case 9 => lastCall := ReadHex(tok, stale);
      }
    }

    method StoreFeature(i: nat, tok: string, r: int, stale: int) returns (result: int)
      requires 10 <= i <= 13
      modifies `hasSIZE, `hasMDTM, `hasPASV, `isUnix
      ensures Contents() == Assigned(i, tok, old(Contents()), stale) && result == Version(i, r)
    {
      result := r;
      match i {
        case 10 => hasSIZE := Atoi(tok);
        case 11 => hasMDTM := Atoi(tok);
        case 12 => hasPASV := Atoi(tok);
        case 13 => isUnix := Atoi(tok); result := 3;
      }
    }

    method StoreRest(i: nat, tok: string, r: int, stale: int) returns (result: int)
      requires 14 <= i <= 22
      modifies `lastIP, `comment, `xferMode, `hasUTIME, `ldir
      ensures Contents() == Assigned(i, tok, old(Contents()), stale) && result == Version(i, r)
    {
      result := r;
      match i {
        case 14 => lastIP := Clipped(32, tok);
        case 15 => comment := Clipped(128, tok);
        case 20 => xferMode := if tok == "" then '\0' else tok[0]; result := 7;
        case 21 => hasUTIME := Atoi(tok);
        case 22 => ldir := Clipped(160, tok); result := 8;
        case _ =>
      }
    }

    /** ParseHostLine. */
    method ParseHostLine(line: string, codec: Codec, stale: int) returns (result: int)
      modifies this
      ensures (Contents(), result) == Parsed(line, codec, stale)
    {
      SetBookmarkDefaults();
      var token := new char[TOKEN_SIZE];
      var s, i := 0, 1;
      result := -1;
      ghost var rest, goal := line, StoreAll(1, Tokens(line), DEFAULTS, -1, stale);
      while s < |line|
        invariant 0 <= s <= |line| && rest == line[s..] && i >= 1
        invariant StoreAll(i, Tokens(rest), Contents(), result, stale) == goal
        modifies this, token
        decreases |line| - s
      {
        s := NextToken(line, s, token);
        StrOfBuffer(token, Clipped(TOKEN_SIZE, Decoded(rest)));
        if i > 22 {
          result := 99;
          break;
        }
        result := Store(i, StrOf(token[..]), result, stale);
        assert rest[Used(rest)..] == line[s..];
        rest := line[s..];
        i := i + 1;
      }
      if PASSWORD_MAGIC <= pass {
        pass := Clipped(64, codec.from(pass[|PASSWORD_MAGIC|..]));
      }
    }
  }
}
