/** The text of one field of a bookmarks file: how BmEscapeTok writes it and how ParseHostLine reads
    it back (ncftp/bookmark.c). */
module BookmarkText {
  import opened Basics

  // ---- characters ----

  function HexDigit(n: nat): letter
    requires n < 16
  {
    if n < 10 then ('0' as int + n) as char else ('a' as int + n - 10) as char
  }

  /** HexCharToNibble: -1 for what is not a hexadecimal digit. */
  function HexCharToNibble(c: char): (n: int)
    ensures -1 <= n < 16
    ensures n >= 0 && !('A' <= c <= 'F') ==> HexDigit(n) == c
  {
    if '0' <= c <= '9' then c as int - '0' as int
    else if 'a' <= c <= 'f' then c as int - 'a' as int + 10
    else if 'A' <= c <= 'F' then c as int - 'A' as int + 10
    else -1
  }

  lemma NibbleOfHexDigit(n: nat)
    requires n < 16
    ensures HexCharToNibble(HexDigit(n)) == n
  {
  }

  /** The sixteen digits, of which the letters may be large, and nothing else. */
  lemma DigitValues(n: nat, c: char)
    requires n < 16
    ensures HexDigit(n) == "0123456789abcdef"[n]
    ensures HexCharToNibble("0123456789abcdef"[n]) == HexCharToNibble("0123456789ABCDEF"[n]) == n
    ensures HexCharToNibble(c) == -1 <==> c !in "0123456789abcdefABCDEF"
  {
    assert forall d: char :: '0' <= d <= '9' ==> d in "0123456789" by {
      forall d: char | '0' <= d <= '9' ensures d in "0123456789" {
        assert d == "0123456789"[d as int - '0' as int];
      }
    }
  }

  /** Text as the program keeps it: C strings of seven-bit characters. */
  type text = seq<letter>
  type letter = c: char | 0 < c as int < 128 witness 'a'

  predicate Special(c: char) {
    c == '\\' || c == ',' || c == '$'
  }

  predicate Printable(c: char) {
    32 <= c as int < 127
  }

  /** What stands for a character in the file. */
  function Escape(c: letter): (e: text)
    ensures 1 <= |e| <= 3
  {
    if Special(c) then ['\\', c]
    else if !Printable(c) then ['$', HexDigit(c as int / 16), HexDigit(c as int % 16)]
    else [c]
  }

  /** A backslash before itself, a comma or a dollar sign; a dollar sign and two hexadecimal digits for what is not
      printed. */
  lemma EscapeSpelled(c: letter)
    ensures c == ',' || c == '\\' || c == '$' ==> Escape(c) == ['\\', c]
    ensures (c as int < 32 || c as int == 127) ==>
              Escape(c) == ['$', "0123456789abcdef"[c as int / 16], "0123456789abcdef"[c as int % 16]]
    ensures c != ',' && c != '\\' && c != '$' && 32 <= c as int < 127 ==> Escape(c) == [c]
  {
    DigitValues(c as int / 16, c);
    DigitValues(c as int % 16, c);
  }

  function EscapeAll(f: text): (e: text)
    ensures |f| <= |e|
  {
    if f == "" then "" else Escape(f[0]) + EscapeAll(f[1..])
  }

  /** The characters whose escapes find room when `used` of `room` characters are taken: one that does
      not fit is passed over, a shorter one behind it may still fit. */
  function Retained(room: nat, used: nat, f: text): (k: text)
    ensures |k| <= |f|
    decreases f
  {
    if f == "" then ""
    else if used + |Escape(f[0])| <= room then [f[0]] + Retained(room, used + |Escape(f[0])|, f[1..])
    else Retained(room, used, f[1..])
  }

  /** Nothing is passed over exactly when the whole escaped text fits. */
  lemma {:induction false} RetainedAll(room: nat, used: nat, f: text)
    requires used <= room
    ensures Retained(room, used, f) == f <==> used + |EscapeAll(f)| <= room
    decreases f
  {
    if f != "" {
      var e, rest := Escape(f[0]), f[1..];
      if used + |e| <= room {
        var k := Retained(room, used + |e|, rest);
        RetainedAll(room, used + |e|, rest);
        assert [f[0]] + rest == f;
        assert ([f[0]] + k)[1..] == k;
      } else {
        assert |Retained(room, used, rest)| < |f|;
      }
    }
  }

  lemma {:induction false} RetainedFits(room: nat, used: nat, f: text)
    requires used <= room
    ensures used + |EscapeAll(Retained(room, used, f))| <= room
    decreases f
  {
    if f != "" {
      var e, rest := Escape(f[0]), f[1..];
      if used + |e| <= room {
        RetainedFits(room, used + |e|, rest);
        EscapeCons(f[0], Retained(room, used + |e|, rest));
      } else {
        RetainedFits(room, used, rest);
      }
    }
  }

  lemma EscapeCons(c: letter, f: text)
    ensures EscapeAll([c] + f) == Escape(c) + EscapeAll(f)
  {
    assert ([c] + f)[1..] == f;
  }

  /** BmEscapeTok. */
  method BmEscapeTok(dst: array<char>, src: text)
    requires dst.Length > 0
    modifies dst
    ensures Filled(dst, EscapeAll(Retained(dst.Length - 1, 0, src)))
  {
    var d, s := 0, 0;
    ghost var all := Retained(dst.Length - 1, 0, src);
    ghost var kept: text, left, rest := "", all, src;
    while s < |src|
      invariant 0 <= s <= |src| && 0 <= d < dst.Length && rest == src[s..]
      invariant dst[..d] == EscapeAll(kept)
      invariant left == Retained(dst.Length - 1, d, rest) && kept + left == all
    {
      var c := src[s];
      ghost var before := d;
      s := s + 1;
      d := PutEscaped(dst, d, c, kept);
      rest := rest[1..];
      left := Retained(dst.Length - 1, d, rest);
      if before < d {
        ReadOn(kept, [c], left, all);
        kept := kept + [c];
      }
    }
    assert kept == all;
    dst[d] := '\0';
  }

  /** One character of BmEscapeTok, if there is room for what stands for it. */
  method PutEscaped(dst: array<char>, d: nat, c: letter, ghost kept: text) returns (d': nat)
    requires d < dst.Length
    requires dst[..d] == EscapeAll(kept)
    modifies dst
    ensures d' == if d + |Escape(c)| <= dst.Length - 1 then d + |Escape(c)| else d
    ensures d < d' ==> dst[..d'] == EscapeAll(kept + [c])
    ensures d == d' ==> dst[..d] == EscapeAll(kept)
  {
    var dlim := dst.Length - 1;
    d' := d;
    EscapeSnoc(kept, c);
    if c == '\\' || c == ',' || c == '$' {
      if d + 1 < dlim {
        dst[d], dst[d + 1] := '\\', c;
        d' := d + 2;
      }
    } else if !Printable(c) {
      if d + 2 < dlim {
        dst[d], dst[d + 1], dst[d + 2] := '$', HexDigit(c as int / 16), HexDigit(c as int % 16);
        d' := d + 3;
      }
    } else {
      if d < dlim {
        dst[d] := c;
        d' := d + 1;
      }
    }
    assert d < d' ==> dst[..d'] == old(dst[..d]) + Escape(c);
  }

  lemma {:induction false} EscapeSnoc(f: text, c: letter)
    ensures EscapeAll(f + [c]) == EscapeAll(f) + Escape(c)
  {
    var g := f + [c];
    if f == "" {
      assert g == [c] + "";
      EscapeCons(c, "");
    } else {
      EscapeSnoc(f[1..], c);
      assert g[0] == f[0] && g[1..] == f[1..] + [c];
    }
  }

  // ---- reading a field ----

  /** The characters a field stands for, up to its comma. */
  function Decoded(s: string): string {
    if s == "" || s[0] == ',' then ""
    else if s[0] == '\\' && |s| > 1 then [s[1]] + Decoded(s[2..])
    else if s[0] == '$' && |s| > 2 then HexPair(s[1], s[2]) + Decoded(s[3..])
    else [s[0]] + Decoded(s[1..])
  }

  /** A dollar sign and two characters; they stand for nothing unless both are digits. */
  function HexPair(c1: char, c2: char): string {
    var n1, n2 := HexCharToNibble(c1), HexCharToNibble(c2);
    if n1 >= 0 && n2 >= 0 then [(n1 * 16 + n2) as char] else ""
  }

  /** How much of the line a field takes, its comma included. */
  function Used(s: string): (n: nat)
    ensures n <= |s| && (s != "" ==> n > 0)
  {
    if s == "" then 0
    else if s[0] == '\\' && |s| > 1 then 2 + Used(s[2..])
    else if s[0] == ',' then 1
    else if s[0] == '$' && |s| > 2 then 3 + Used(s[3..])
    else 1 + Used(s[1..])
  }

  /** A piece of text that is read to its end, and no further, as one field. */
  predicate Whole(p: string) {
    if p == "" then true
    else if p[0] == '\\' then |p| > 1 && Whole(p[2..])
    else if p[0] == '$' then |p| > 2 && Whole(p[3..])
    else p[0] != ',' && Whole(p[1..])
  }

  /** Nothing more, or the comma before the next field. */
  predicate Ends(rest: string) {
    rest == "" || rest[0] == ','
  }

  lemma {:induction false} WholeIsRead(p: string, rest: string)
    requires Whole(p) && Ends(rest)
    ensures Decoded(p + rest) == Decoded(p)
    ensures Used(p + rest) == |p| + (if rest == "" then 0 else 1)
  {
    if p == "" {
      assert p + rest == rest;
    } else if p[0] == '\\' {
      assert (p + rest)[2..] == p[2..] + rest;
      WholeIsRead(p[2..], rest);
    } else if p[0] == '$' {
      assert (p + rest)[3..] == p[3..] + rest;
      WholeIsRead(p[3..], rest);
    } else {
      assert (p + rest)[1..] == p[1..] + rest;
      WholeIsRead(p[1..], rest);
    }
  }

  /** Reading undoes escaping. */
  lemma {:induction false} DecodeEscape(f: text)
    ensures Whole(EscapeAll(f)) && Decoded(EscapeAll(f)) == f
  {
    if f != "" {
      DecodeEscape(f[1..]);
      EscapeIsWhole(f[0], EscapeAll(f[1..]));
      assert [f[0]] + f[1..] == f;
    }
  }

  lemma EscapeIsWhole(c: letter, rest: string)
    requires Whole(rest)
    ensures Whole(Escape(c) + rest) && Decoded(Escape(c) + rest) == [c] + Decoded(rest)
  {
    var s := Escape(c) + rest;
    if Special(c) {
      assert s[2..] == rest;
    } else if !Printable(c) {
      assert s[3..] == rest;
      NibbleOfHexDigit(c as int / 16);
      NibbleOfHexDigit(c as int % 16);
    } else {
      assert s[1..] == rest;
    }
  }

  /** Text without the three special characters is read as it stands. */
  predicate Plain(f: string) {
    forall i :: 0 <= i < |f| ==> !Special(f[i])
  }

  lemma {:induction false} PlainIsWhole(f: string)
    requires Plain(f)
    ensures Whole(f) && Decoded(f) == f
  {
    if f != "" {
      PlainIsWhole(f[1..]);
      assert [f[0]] + f[1..] == f;
    }
  }

  // ---- token buffer ----

  const TOKEN_SIZE := 128
  const ESCAPED_SIZE := 256

  /** What of a token fits its buffer. */
  function Clipped(size: nat, t: string): string
    requires size > 0
  {
    if |t| < size then t else t[..size - 1]
  }

  /** A field comes back from the file exactly when neither buffer is too small for it. */
  lemma FieldSurvives(f: text)
    ensures Clipped(TOKEN_SIZE, Decoded(EscapeAll(Retained(ESCAPED_SIZE - 1, 0, f)))) == f
       <==> |f| < TOKEN_SIZE && |EscapeAll(f)| < ESCAPED_SIZE
  {
    var k := Retained(ESCAPED_SIZE - 1, 0, f);
    DecodeEscape(k);
    RetainedAll(ESCAPED_SIZE - 1, 0, f);
  }

  /** The loop of ParseHostLine over one field, from `s` on. */
  method NextToken(line: string, s: nat, token: array<char>) returns (next: nat)
    requires s < |line| && token.Length == TOKEN_SIZE
    modifies token
    ensures Filled(token, Clipped(TOKEN_SIZE, Decoded(line[s..]))) && next == s + Used(line[s..])
  {
    var d, more := 0, true;
    next := s;
    ghost var read, rest := "", line[s..];
    while more && next < |line|
      invariant s <= next <= |line| && (more ==> rest == line[next..])
      invariant d == Min(|read|, TOKEN_SIZE - 1) && token[..d] == read[..d]
      invariant read + (if more then Decoded(rest) else "") == Decoded(line[s..])
      invariant next + (if more then Used(rest) else 0) == s + Used(line[s..])
      decreases |line| - next
    {
      ghost var got;
      ghost var all := Decoded(rest);
      more, next, d, got := TakeChar(line, next, token, d, read, rest);
      rest := line[next..];
      ReadOn(read, got, if more then Decoded(rest) else "", Decoded(line[s..]));
      read := read + got;
    }
    assert !more || rest == "";
    token[d] := '\0';
  }

  lemma ReadOn(read: string, got: string, rest: string, all: string)
    requires read + (got + rest) == all
    ensures (read + got) + rest == all
  {
    assert read + (got + rest) == (read + got) + rest;
  }

  /** One round of that loop: a comma ends the field, anything else adds at most one character. */
  method TakeChar(line: string, s: nat, token: array<char>, d: nat, ghost read: string, ghost rest: string)
      returns (more: bool, next: nat, d': nat, ghost got: string)
    requires s < |line| && rest == line[s..] && token.Length == TOKEN_SIZE
    requires d == Min(|read|, TOKEN_SIZE - 1) && token[..d] == read[..d]
    modifies token
    ensures s < next <= |line| && next + (if more then Used(line[next..]) else 0) == s + Used(rest)
    ensures got + (if more then Decoded(line[next..]) else "") == Decoded(rest)
    ensures d' == Min(|read + got|, TOKEN_SIZE - 1) && token[..d'] == (read + got)[..d']
  {
    more, d', got := true, d, "";
    if line[s] == '\\' && s + 1 < |line| {
      assert rest[2..] == line[s + 2..];
      got := [line[s + 1]];
      d' := PutChar(token, d, line[s + 1], read);
      next := s + 2;
    } else if line[s] == ',' {
      next, more := s + 1, false;
    } else if line[s] == '$' && s + 2 < |line| {
      assert rest[3..] == line[s + 3..];
      var n1, n2 := HexCharToNibble(line[s + 1]), HexCharToNibble(line[s + 2]);
      if n1 >= 0 && n2 >= 0 {
        got := [(n1 * 16 + n2) as char];
        d' := PutChar(token, d, (n1 * 16 + n2) as char, read);
      }
      next := s + 3;
    } else {
      assert rest[1..] == line[s + 1..];
      got := [line[s]];
      d' := PutChar(token, d, line[s], read);
      next := s + 1;
    }
    assert got == "" ==> read + got == read;
  }

  /** `if (d < tokenend) *d++ = c` */
  method PutChar(token: array<char>, d: nat, c: char, ghost read: string) returns (d': nat)
    requires token.Length == TOKEN_SIZE && d == Min(|read|, TOKEN_SIZE - 1) && token[..d] == read[..d]
    modifies token
    ensures d' == Min(|read + [c]|, TOKEN_SIZE - 1) && token[..d'] == (read + [c])[..d']
  {
    d' := d;
    if d < TOKEN_SIZE - 1 {
      token[d] := c;
      d' := d + 1;
    }
    assert (read + [c])[..d] == read[..d];
  }
}
