/** End-of-line translation for ASCII transfers (section 3.1.1.1 of RFC 959): what the
    loops of io_get.c and io_put.c compute, stated on whole files. */
module Eoln {
  import opened Bytes

  /** What a received stream becomes on disk. CR LF is the legal mark; a lone LF, a lone CR
      and CR CR LF are tolerated as one line end, CR CR before anything else as two. */
  function Decode(s: seq<byte>, eoln: seq<byte>): seq<byte> {
    if s == [] then []
    else if s[0] == LF then eoln + Decode(s[1..], eoln)
    else if s[0] != CR then [s[0]] + Decode(s[1..], eoln)
    else if |s| == 1 then eoln
    else if s[1] == LF then eoln + Decode(s[2..], eoln)
    else if s[1] != CR then eoln + Decode(s[1..], eoln)
    else if |s| == 2 then eoln + eoln
    else if s[2] == LF then eoln + Decode(s[3..], eoln)
    else eoln + eoln + Decode(s[2..], eoln)
  }

  /** What a local file becomes on the wire: CR LF, lone CR and lone LF each become CR LF. */
  function Encode(s: seq<byte>): seq<byte> {
    if s == [] then []
    else if s[0] == LF then [CR, LF] + Encode(s[1..])
    else if s[0] != CR then [s[0]] + Encode(s[1..])
    else if |s| > 1 && s[1] == LF then [CR, LF] + Encode(s[2..])
    else [CR, LF] + Encode(s[1..])
  }

  /** A text with every line end, CR LF, CR or LF, spelled `eoln`. */
  function Normalize(s: seq<byte>, eoln: seq<byte>): seq<byte> {
    if s == [] then []
    else if s[0] == LF then eoln + Normalize(s[1..], eoln)
    else if s[0] != CR then [s[0]] + Normalize(s[1..], eoln)
    else if |s| > 1 && s[1] == LF then eoln + Normalize(s[2..], eoln)
    else eoln + Normalize(s[1..], eoln)
  }

  /** Legal network text: CR only before LF, LF only after CR. */
  ghost predicate NetAscii(s: seq<byte>) {
    && (forall i :: 0 <= i < |s| && s[i] == CR ==> i + 1 < |s| && s[i + 1] == LF)
    && (forall i :: 0 <= i < |s| && s[i] == LF ==> i > 0 && s[i - 1] == CR)
  }

  ghost predicate EndsInCR(s: seq<byte>) {
    |s| > 0 && s[|s| - 1] == CR
  }

  /** `n` line ends in a row. */
  ghost function Eolns(textEOLN: seq<byte>, n: nat): seq<byte> {
    if n == 0 then [] else textEOLN + Eolns(textEOLN, n - 1)
  }

  lemma EolnsStep(out: seq<byte>, textEOLN: seq<byte>, n: nat)
    ensures out + Eolns(textEOLN, 1 + n) == (out + textEOLN) + Eolns(textEOLN, n)
    ensures n == 0 ==> out + Eolns(textEOLN, 1) == out + textEOLN
  {
  }

  /** Each way `n` line ends can be spelled when `t` follows. */
  ghost predicate Spells(mark: seq<byte>, n: nat, t: seq<byte>) {
    || (n == 1 && (mark == [LF] || mark == [CR, LF] || mark == [CR, CR, LF]))
    || (n == 1 && mark == [CR] && t != [] && t[0] != CR && t[0] != LF)
    || (n == 2 && mark == [CR, CR] && t != [] && t[0] != LF)
  }

  lemma DecodeMark(mark: seq<byte>, t: seq<byte>, eoln: seq<byte>, n: nat)
    requires Spells(mark, n, t)
    ensures Decode(mark + t, eoln) == Eolns(eoln, n) + Decode(t, eoln)
  {
    var s := mark + t;
    assert s[|mark|..] == t;
    assert Eolns(eoln, 1) == eoln && Eolns(eoln, 2) == eoln + eoln by {
      assert Eolns(eoln, 0) == [];
    }
  }

  /** At the end of the stream a CR is one line end and CR CR two; any other octet is what it was. */
  lemma DecodeRest(c: byte, t: seq<byte>, eoln: seq<byte>)
    ensures Decode([], eoln) == [] && Decode([CR], eoln) == eoln && Decode([CR, CR], eoln) == eoln + eoln
    ensures c != CR && c != LF ==> Decode([c] + t, eoln) == [c] + Decode(t, eoln)
  {
    assert ([c] + t)[1..] == t;
  }

  // ---- lengths ----

  function CountBareLF(s: seq<byte>, prev: byte): nat {
    if s == [] then 0
    else (if s[0] == LF && prev != CR then 1 else 0) + CountBareLF(s[1..], s[0])
  }

  /** CRs not followed by LF. */
  function CountBareCR(s: seq<byte>): nat {
    if s == [] then 0
    else (if s[0] == CR && !(|s| > 1 && s[1] == LF) then 1 else 0) + CountBareCR(s[1..])
  }

  lemma {:induction false} EncodedLength(s: seq<byte>)
    ensures |Encode(s)| == |s| + CountBareLF(s, 0) + CountBareCR(s)
  {
    EncodedLengthAfter(s, 0);
  }

  lemma {:induction false} EncodedLengthAfter(s: seq<byte>, prev: byte)
    requires prev != CR
    ensures |Encode(s)| == |s| + CountBareLF(s, prev) + CountBareCR(s)
    decreases |s|
  {
    if s == [] {
    } else if s[0] == CR && |s| > 1 && s[1] == LF {
      assert s[1..][1..] == s[2..];
      EncodedLengthAfter(s[2..], LF);
    } else if s[0] == CR {
      CountBareLFAfterCR(s[1..], 0);
      EncodedLengthAfter(s[1..], 0);
    } else {
      EncodedLengthAfter(s[1..], s[0]);
    }
  }

  /** Only a leading LF can tell whether a CR came before. */
  lemma CountBareLFAfterCR(s: seq<byte>, prev: byte)
    requires s == [] || s[0] != LF
    ensures CountBareLF(s, CR) == CountBareLF(s, prev)
  {
  }

  /** Encoding at most doubles a block; a block that neither starts with LF nor ends in CR
      leaves one octet to spare. */
  lemma {:induction false} EncodeAtMostDoubles(s: seq<byte>)
    ensures |Encode(s)| <= 2 * |s|
    ensures s != [] && s[0] != LF && !EndsInCR(s) ==> |Encode(s)| <= 2 * |s| - 1
    decreases |s|
  {
    if s == [] {
    } else if s[0] == CR && |s| > 1 && s[1] == LF {
      EncodeAtMostDoubles(s[2..]);
    } else {
      EncodeAtMostDoubles(s[1..]);
    }
  }

  // ---- cutting a text in two ----

  lemma Associate(a: seq<byte>, b: seq<byte>, c: seq<byte>)
    ensures a + (b + c) == (a + b) + c
  {
  }

  /** A cut that does not part a CR from what follows it commutes with encoding. */
  lemma {:induction false} EncodeSplit(a: seq<byte>, b: seq<byte>)
    requires !EndsInCR(a) || b == [] || b[0] != LF
    ensures Encode(a + b) == Encode(a) + Encode(b)
    decreases |a|
  {
    var s := a + b;
    if a == [] {
      assert s == b;
    } else if a[0] == CR && |a| > 1 && a[1] == LF {
      assert s[0] == CR && s[1] == LF && s[2..] == a[2..] + b;
      EncodeSplit(a[2..], b);
      Associate([CR, LF], Encode(a[2..]), Encode(b));
    } else {
      assert s[0] == a[0] && s[1..] == a[1..] + b;
      assert s[0] == CR && |s| > 1 ==> s[1] != LF;
      EncodeSplit(a[1..], b);
      Associate(if a[0] == CR || a[0] == LF then [CR, LF] else [a[0]], Encode(a[1..]), Encode(b));
    }
  }

  /** A cut between CR and LF: the line end was already sent for the CR. */
  lemma {:induction false} EncodeSplitCRLF(a: seq<byte>, b: seq<byte>)
    requires EndsInCR(a) && b != [] && b[0] == LF
    ensures Encode(a + b) == Encode(a) + Encode(b[1..])
  {
    var front := a[..|a| - 1];
    assert a == front + [CR] && a + b == front + ([CR] + b);
    EncodeSplit(front, [CR]);
    EncodeSplit(front, [CR] + b);
    assert ([CR] + b)[2..] == b[1..];
    assert Encode([CR]) == [CR, LF] + Encode([]);
  }

  /** What is sent for a part of a text is a prefix of what is sent for all of it. */
  lemma EncodePrefix(a: seq<byte>, b: seq<byte>)
    ensures Encode(a) <= Encode(a + b)
    ensures Encode(a) == Encode(a + b) <==> b == [] || (EndsInCR(a) && b == [LF])
  {
    if EndsInCR(a) && b != [] && b[0] == LF {
      EncodeSplitCRLF(a, b);
      assert Encode(b[1..]) == [] <==> b[1..] == [];
      assert b[1..] == [] <==> b == [LF];
    } else {
      EncodeSplit(a, b);
    }
  }

  // ---- encode and decode undo each other ----

  lemma {:induction false} EncodeIsNetAscii(s: seq<byte>)
    ensures NetAscii(Encode(s))
    decreases |s|
  {
    if s == [] {
    } else if s[0] == CR && |s| > 1 && s[1] == LF {
      EncodeIsNetAscii(s[2..]);
      NetAsciiPrepend(Encode(s[2..]));
    } else {
      EncodeIsNetAscii(s[1..]);
      if s[0] == CR || s[0] == LF {
        NetAsciiPrepend(Encode(s[1..]));
      } else {
        var t := Encode(s[1..]);
        var u := [s[0]] + t;
        assert forall i :: 0 < i < |u| ==> u[i] == t[i - 1];
      }
    }
  }

  lemma NetAsciiPrepend(t: seq<byte>)
    requires NetAscii(t)
    ensures NetAscii([CR, LF] + t)
  {
    var u := [CR, LF] + t;
    assert forall i :: 1 < i < |u| ==> u[i] == t[i - 2];
  }

  /** Decoding what was encoded gives the file with its line ends respelled, whatever the local one. */
  lemma {:induction false} DecodeEncode(s: seq<byte>, eoln: seq<byte>)
    ensures Decode(Encode(s), eoln) == Normalize(s, eoln)
    decreases |s|
  {
    if s == [] {
    } else if s[0] == CR && |s| > 1 && s[1] == LF {
      DecodeCRLF(Encode(s[2..]), eoln);
      DecodeEncode(s[2..], eoln);
    } else if s[0] == CR || s[0] == LF {
      DecodeCRLF(Encode(s[1..]), eoln);
      DecodeEncode(s[1..], eoln);
    } else {
      assert Encode(s)[1..] == Encode(s[1..]);
      DecodeEncode(s[1..], eoln);
    }
  }

  lemma DecodeCRLF(t: seq<byte>, eoln: seq<byte>)
    ensures Decode([CR, LF] + t, eoln) == eoln + Decode(t, eoln)
  {
    assert ([CR, LF] + t)[2..] == t;
  }

  /** A file without CRs survives an upload followed by a download unchanged, and only such
      a file does. */
  lemma {:induction false} TransferRoundTrip(s: seq<byte>)
    ensures Decode(Encode(s), [LF]) == s <==> CR !in s
  {
    DecodeEncode(s, [LF]);
    NormalizeFixes(s);
  }

  /** Where the local line end is CR LF, a file survives exactly when all its line ends are CR LF. */
  lemma {:induction false} TransferRoundTripCRLF(s: seq<byte>)
    ensures Decode(Encode(s), [CR, LF]) == s <==> NetAscii(s)
  {
    DecodeEncode(s, [CR, LF]);
    NormalizeToCRLF(s);
    EncodeIsNetAscii(s);
  }

  lemma {:induction false} NormalizeToCRLF(s: seq<byte>)
    ensures Normalize(s, [CR, LF]) == Encode(s)
    ensures NetAscii(s) ==> Encode(s) == s
    decreases |s|
  {
    if s == [] {
    } else if s[0] == CR && |s| > 1 && s[1] == LF {
      var u := s[2..];
      NormalizeToCRLF(u);
      assert s == [CR, LF] + u;
      assert forall i :: 0 <= i < |u| ==> u[i] == s[i + 2];
    } else {
      var u := s[1..];
      NormalizeToCRLF(u);
      assert s == [s[0]] + u;
      assert forall i :: 0 <= i < |u| ==> u[i] == s[i + 1];
    }
  }

  lemma {:induction false} NormalizeFixes(s: seq<byte>)
    ensures CR !in Normalize(s, [LF])
    ensures CR !in s ==> Normalize(s, [LF]) == s
    decreases |s|
  {
    if s == [] {
    } else if s[0] == CR && |s| > 1 && s[1] == LF {
      NormalizeFixes(s[2..]);
    } else {
      NormalizeFixes(s[1..]);
      assert s == [s[0]] + s[1..];
    }
  }

  /** The other direction: a received stream can be sent back as it came exactly when it was
      legal network text. */
  lemma {:induction false} ReceiveRoundTrip(t: seq<byte>)
    ensures Encode(Decode(t, [LF])) == t <==> NetAscii(t)
  {
    if NetAscii(t) {
      NetAsciiSurvives(t);
    } else {
      EncodeIsNetAscii(Decode(t, [LF]));
    }
  }

  lemma {:induction false} NetAsciiSurvives(t: seq<byte>)
    requires NetAscii(t)
    ensures Encode(Decode(t, [LF])) == t
    decreases |t|
  {
    if t == [] {
    } else if t[0] == CR {
      assert t[1] == LF;
      var u := t[2..];
      assert forall i :: 0 <= i < |u| ==> u[i] == t[i + 2];
      NetAsciiSurvives(u);
      assert t == [CR, LF] + u;
      assert ([LF] + Decode(u, [LF]))[1..] == Decode(u, [LF]);
    } else {
      assert t[0] != LF;
      var u := t[1..];
      assert forall i :: 0 <= i < |u| ==> u[i] == t[i + 1];
      NetAsciiSurvives(u);
      assert ([t[0]] + Decode(u, [LF]))[1..] == Decode(u, [LF]);
    }
  }
}
