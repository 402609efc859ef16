/** UTF-8 as `String::from_utf8` accepts it: the well-formed byte sequences
    of section 4 of RFC 3629 (table 3-7 of the Unicode Standard), which
    exclude overlong forms, surrogates and code points above U+10FFFF. */
module Utf8 {
  import opened Bytes

  /** A continuation byte, 10xxxxxx. */
  predicate Continuation(b: byte)
  {
    0x80 <= b <= 0xBF
  }

  /** The range the second byte of a multi-byte sequence must lie in,
      which depends on the lead byte. */
  predicate SecondOk(lead: byte, b: byte)
  {
    if lead == 0xE0 then 0xA0 <= b <= 0xBF
    else if lead == 0xED then 0x80 <= b <= 0x9F
    else if lead == 0xF0 then 0x90 <= b <= 0xBF
    else if lead == 0xF4 then 0x80 <= b <= 0x8F
    else Continuation(b)
  }

  /** The length of the well-formed sequence s starts with, or 0 when it
      does not start with one. */
  function CharWidth(s: seq<byte>): (w: nat)
    requires |s| > 0
    ensures w <= 4 && w <= |s|
    ensures s[0] < 0x80 ==> w == 1
    ensures forall k :: 1 <= k < w ==> Continuation(s[k])
  {
    var lead := s[0];
    if lead < 0x80 then 1
    else if 0xC2 <= lead <= 0xDF then
      if 2 <= |s| && Continuation(s[1]) then 2 else 0
    else if 0xE0 <= lead <= 0xEF then
      if 3 <= |s| && SecondOk(lead, s[1]) && Continuation(s[2]) then 3 else 0
    else if 0xF0 <= lead <= 0xF4 then
      if 4 <= |s| && SecondOk(lead, s[1]) && Continuation(s[2]) && Continuation(s[3]) then 4 else 0
    else 0
  }

  /** s is a sequence of well-formed UTF-8 characters. */
  predicate Valid(s: seq<byte>)
    decreases |s|
  {
    |s| == 0 || (CharWidth(s) > 0 && Valid(s[CharWidth(s)..]))
  }

  /** Every byte of s is ASCII. */
  predicate Ascii(s: seq<byte>)
  {
    forall k :: 0 <= k < |s| ==> s[k] < 0x80
  }

  /** ASCII text is valid UTF-8. */
  lemma {:induction false} AsciiValid(s: seq<byte>)
    requires Ascii(s)
    ensures Valid(s)
    decreases |s|
  {
    if |s| > 0 {
      AsciiValid(s[1..]);
    }
  }

  /** A character that s starts with is read the same with more bytes
      after it. */
  lemma CharWidthExtends(s: seq<byte>, t: seq<byte>)
    requires |s| > 0 && CharWidth(s) > 0
    ensures CharWidth(s + t) == CharWidth(s)
  {
    assert (s + t)[0] == s[0];
    assert |s| >= 2 ==> (s + t)[1] == s[1];
    assert |s| >= 3 ==> (s + t)[2] == s[2];
    assert |s| >= 4 ==> (s + t)[3] == s[3];
  }

  /** Valid text followed by valid text is valid. */
  lemma {:induction false} ValidConcat(s: seq<byte>, t: seq<byte>)
    requires Valid(s) && Valid(t)
    ensures Valid(s + t)
    decreases |s|
  {
    if |s| == 0 {
      assert s + t == t;
    } else {
      var w := CharWidth(s);
      CharWidthExtends(s, t);
      DropConcat(s, t, w);
      ValidConcat(s[w..], t);
    }
  }

  /** Dropping a prefix of s from s + t leaves the rest of s, then t. */
  lemma DropConcat(s: seq<byte>, t: seq<byte>, w: nat)
    requires w <= |s|
    ensures (s + t)[w..] == s[w..] + t
  {
  }

  /** Dropping ASCII bytes from the front of valid text leaves valid
      text. */
  lemma {:induction false} ValidAfterAscii(s: seq<byte>, t: seq<byte>)
    requires Ascii(s) && Valid(s + t)
    ensures Valid(t)
    decreases |s|
  {
    if |s| > 0 {
      assert (s + t)[0] == s[0];
      assert (s + t)[1..] == s[1..] + t;
      ValidAfterAscii(s[1..], t);
    } else {
      assert s + t == t;
    }
  }

  /** Dropping ASCII bytes from the end of valid text leaves valid text: no
      character can run into an ASCII byte, which is never a continuation
      byte. */
  lemma {:induction false} ValidBeforeAscii(s: seq<byte>, t: seq<byte>)
    requires Ascii(t) && Valid(s + t)
    ensures Valid(s)
    decreases |s|
  {
    if |s| > 0 {
      var w := CharWidth(s + t);
      if |t| > 0 {
        assert (s + t)[|s|] == t[0];
      }
      CharWidthShrinks(s, t);
      assert (s + t)[w..] == s[w..] + t;
      ValidBeforeAscii(s[w..], t);
    }
  }

  /** A character read from s + t that ends inside s is read from s
      alone. */
  lemma CharWidthShrinks(s: seq<byte>, t: seq<byte>)
    requires |s| > 0 && 0 < CharWidth(s + t) <= |s|
    ensures CharWidth(s) == CharWidth(s + t)
  {
    assert (s + t)[0] == s[0];
    assert |s| >= 2 ==> (s + t)[1] == s[1];
    assert |s| >= 3 ==> (s + t)[2] == s[2];
    assert |s| >= 4 ==> (s + t)[3] == s[3];
  }
}

/** The VxD directory of a "W3" archive, as `w3_load_vxds` reads it: a
    16-byte header holding the "W3" tag and the little-endian entry count
    at offset 4, then one 16-byte entry per VxD: an 8-byte name padded with
    ASCII whitespace, the little-endian file offset and the little-endian
    header size. */
module W3 {
  import opened Bytes
  import opened Results
  import Utf8

  const LetterW: byte := 0x57
  const Digit3: byte := 0x33

  /** Where the entry count is kept. */
  const CountAt: nat := 4
  /** Where the entries start, and the size of each. */
  const EntryTable: nat := 16
  const EntrySize: nat := 16
  /** The length of the name field of an entry. */
  const NameSize: nat := 8

  /** One VxD of the directory. */
  datatype Vxd = Vxd(name: seq<byte>, fileOffset: u32, headerSize: u32)

  datatype W3Error =
    | BadSignature            // the archive does not start with "W3"
    | InvalidName(index: nat) // the name of entry index is not UTF-8

  /** The whitespace `u8::is_ascii_whitespace` recognises: tab, line feed,
      form feed, carriage return and space (not NUL, not vertical tab). */
  predicate AsciiWhitespace(b: byte)
  {
    b == 0x09 || b == 0x0A || b == 0x0C || b == 0x0D || b == 0x20
  }

  /** `trim_ascii`: s without its leading and trailing ASCII whitespace,
      taken off one byte at a time from either end. */
  function TrimAscii(s: seq<byte>): (r: seq<byte>)
    ensures |r| <= |s|
    ensures 0 < |r| ==> !AsciiWhitespace(r[0]) && !AsciiWhitespace(r[|r| - 1])
    decreases |s|
  {
    if |s| > 0 && AsciiWhitespace(s[0]) then TrimAscii(s[1..])
    else if |s| > 0 && AsciiWhitespace(s[|s| - 1]) then TrimAscii(s[..|s| - 1])
    else s
  }

  /** The first byte, and behind a "W" the second, lie inside the input:
      the tag test reads no further. */
  predicate TagReadable(input: seq<byte>)
  {
    1 <= |input| && (input[0] == LetterW ==> 2 <= |input|)
  }

  /** The tag test: "W" then "3". */
  predicate SignatureOk(input: seq<byte>)
    requires TagReadable(input)
  {
    input[0] == LetterW && input[1] == Digit3
  }

  /** The number of entries. */
  function Count(input: seq<byte>): u16
    requires CountAt + 2 <= |input|
  {
    Le16(input, CountAt)
  }

  /** Every byte w3_load_vxds indexes is inside the input: the tag, and
      behind a good tag the count and every entry (none when the count is
      0). */
  predicate Readable(input: seq<byte>)
  {
    && TagReadable(input)
    && (SignatureOk(input) ==>
          CountAt + 2 <= |input| && (Count(input) == 0 || EntryTable + EntrySize * Count(input) <= |input|))
  }

  /** Where entry i starts. */
  function EntryStart(i: nat): nat
  {
    EntryTable + EntrySize * i
  }

  /** The raw name field of entry i. */
  function NameField(input: seq<byte>, i: nat): (r: seq<byte>)
    requires EntryStart(i) + EntrySize <= |input|
    ensures |r| == NameSize
  {
    input[EntryStart(i)..EntryStart(i) + NameSize]
  }

  /** Entry i read as a record, its name trimmed. */
  function Record(input: seq<byte>, i: nat): Vxd
    requires EntryStart(i) + EntrySize <= |input|
  {
    var at := EntryStart(i);
    Vxd(TrimAscii(NameField(input, i)), Le32(input, at + 8), Le32(input, at + 12))
  }

  /** The name of entry i, once trimmed, is UTF-8. */
  predicate NameOk(input: seq<byte>, i: nat)
    requires EntryStart(i) + EntrySize <= |input|
  {
    Utf8.Valid(Record(input, i).name)
  }

  /** The first n entries, in order; the first whose name is not UTF-8
      stops the walk. */
  function Entries(input: seq<byte>, n: nat): (r: Result<seq<Vxd>, W3Error>)
    requires n == 0 || EntryStart(n) <= |input|
    ensures r.Ok? <==> forall i :: 0 <= i < n ==> NameOk(input, i)
    ensures r.Ok? ==> |r.value| == n && forall i :: 0 <= i < n ==> r.value[i] == Record(input, i)
    ensures r.Err? ==> && r.error.InvalidName? && r.error.index < n
                       && !NameOk(input, r.error.index)
                       && forall i :: 0 <= i < r.error.index ==> NameOk(input, i)
  {
    if n == 0 then Ok([])
    else
      match Entries(input, n - 1)
      case Err(e) => Err(e)
      case Ok(records) =>
        var v := Record(input, n - 1);
        if NameOk(input, n - 1) then
          assert forall i :: 0 <= i < n - 1 ==> (records + [v])[i] == records[i];
          Ok(records + [v])
        else Err(InvalidName(n - 1))
  }

  /** w3_load_vxds: the VxD records of the archive, in directory order, or
      why the original stops. */
  function LoadVxds(input: seq<byte>): (r: Result<seq<Vxd>, W3Error>)
    requires Readable(input)
    ensures r == Err(BadSignature) <==> !SignatureOk(input)
    ensures r.Ok? <==> SignatureOk(input) && forall i :: 0 <= i < Count(input) ==> NameOk(input, i)
    ensures r.Ok? ==> |r.value| == Count(input) && forall i :: 0 <= i < |r.value| ==> r.value[i] == Record(input, i)
    ensures r.Err? && SignatureOk(input) ==>
              && r.error.InvalidName? && r.error.index < Count(input)
              && !NameOk(input, r.error.index)
              && forall i :: 0 <= i < r.error.index ==> NameOk(input, i)
  {
    if input[0] != LetterW || input[1] != Digit3 then Err(BadSignature)
    else Entries(input, Count(input))
  }

  // ---------------------------------------------------------------------
  // Trimming
  // ---------------------------------------------------------------------

  /** TrimAscii is the one slice of s whose ends are not whitespace and
      outside of which there is only whitespace. */
  lemma {:induction false} TrimAsciiUnique(s: seq<byte>, a: nat, b: nat)
    requires a <= b <= |s|
    requires forall k :: 0 <= k < a ==> AsciiWhitespace(s[k])
    requires forall k :: b <= k < |s| ==> AsciiWhitespace(s[k])
    requires a < b ==> !AsciiWhitespace(s[a]) && !AsciiWhitespace(s[b - 1])
    ensures TrimAscii(s) == s[a..b]
    decreases |s|
  {
    if |s| > 0 && AsciiWhitespace(s[0]) {
      var t := s[1..];
      if a == 0 {
        TrimAsciiUnique(t, 0, 0);
      } else {
        TrimAsciiUnique(t, a - 1, b - 1);
        assert t[a - 1..b - 1] == s[a..b];
      }
    } else if |s| > 0 && AsciiWhitespace(s[|s| - 1]) {
      var t := s[..|s| - 1];
      TrimAsciiUnique(t, a, b);
      assert t[a..b] == s[a..b];
    } else if 0 < |s| {
      assert s[a..b] == s;
    }
  }

  /** Trimming twice trims nothing more. */
  lemma TrimAsciiIdempotent(s: seq<byte>)
    ensures TrimAscii(TrimAscii(s)) == TrimAscii(s)
  {
    var r := TrimAscii(s);
    TrimAsciiUnique(r, 0, |r|);
    assert r[0..|r|] == r;
  }

  /** TrimAscii(s) is s[a..b], with only whitespace outside it. */
  predicate TrimmedAt(s: seq<byte>, a: nat, b: nat)
  {
    && a <= b <= |s| && TrimAscii(s) == s[a..b]
    && (forall k :: 0 <= k < a ==> AsciiWhitespace(s[k]))
    && (forall k :: b <= k < |s| ==> AsciiWhitespace(s[k]))
  }

  /** What trimming removes: whitespace only, from either end. */
  lemma {:induction false} TrimAsciiSplit(s: seq<byte>) returns (a: nat, b: nat)
    ensures TrimmedAt(s, a, b)
    decreases |s|
  {
    if |s| > 0 && AsciiWhitespace(s[0]) {
      var a', b' := TrimAsciiSplit(s[1..]);
      TrimmedFront(s, a', b');
      a, b := a' + 1, b' + 1;
    } else if |s| > 0 && AsciiWhitespace(s[|s| - 1]) {
      a, b := TrimAsciiSplit(s[..|s| - 1]);
      TrimmedBack(s, a, b);
    } else {
      a, b := 0, |s|;
    }
  }

  /** A whitespace byte in front moves the trimmed slice one place on. */
  lemma TrimmedFront(s: seq<byte>, a: nat, b: nat)
    requires |s| > 0 && AsciiWhitespace(s[0]) && TrimmedAt(s[1..], a, b)
    ensures TrimmedAt(s, a + 1, b + 1)
  {
    var t := s[1..];
    assert t[a..b] == s[a + 1..b + 1];
    forall k | 0 < k < a + 1
      ensures AsciiWhitespace(s[k])
    {
      assert s[k] == t[k - 1];
    }
    forall k | b + 1 <= k < |s|
      ensures AsciiWhitespace(s[k])
    {
      assert s[k] == t[k - 1];
    }
  }

  /** Whitespace at the back, after a non-whitespace front, leaves the
      trimmed slice where it is. */
  lemma TrimmedBack(s: seq<byte>, a: nat, b: nat)
    requires |s| > 0 && !AsciiWhitespace(s[0]) && AsciiWhitespace(s[|s| - 1])
    requires TrimmedAt(s[..|s| - 1], a, b)
    ensures TrimmedAt(s, a, b)
  {
    var t := s[..|s| - 1];
    assert t[a..b] == s[a..b];
    forall k | b <= k < |t|
      ensures AsciiWhitespace(s[k])
    {
      assert s[k] == t[k];
    }
  }

  /** s is the trimmed bytes with ASCII bytes on either side. */
  lemma TrimAsciiBorders(s: seq<byte>) returns (front: seq<byte>, back: seq<byte>)
    ensures s == front + (TrimAscii(s) + back)
    ensures Utf8.Ascii(front) && Utf8.Ascii(back)
  {
    var a, b := TrimAsciiSplit(s);
    front, back := s[..a], s[b..];
    assert s == front + (s[a..b] + back);
    forall k | 0 <= k < |front|
      ensures front[k] < 0x80
    {
      assert AsciiWhitespace(s[k]);
    }
    forall k | 0 <= k < |back|
      ensures back[k] < 0x80
    {
      assert AsciiWhitespace(s[b + k]);
    }
  }

  /** A name is UTF-8 after trimming exactly when the raw field is:
      trimming removes ASCII bytes only, which never begin or end a
      malformed sequence. */
  lemma TrimKeepsValidity(s: seq<byte>)
    ensures Utf8.Valid(TrimAscii(s)) <==> Utf8.Valid(s)
  {
    var r := TrimAscii(s);
    var front, back := TrimAsciiBorders(s);
    if Utf8.Valid(r) {
      Utf8.AsciiValid(front);
      Utf8.AsciiValid(back);
      Utf8.ValidConcat(r, back);
      Utf8.ValidConcat(front, r + back);
    }
    if Utf8.Valid(s) {
      Utf8.ValidAfterAscii(front, r + back);
      Utf8.ValidBeforeAscii(r, back);
    }
  }

  /** Entry i is accepted exactly when its raw 8-byte name field is UTF-8,
      padding included. */
  lemma NameAccepted(input: seq<byte>, i: nat)
    requires EntryStart(i) + EntrySize <= |input|
    ensures NameOk(input, i) <==> Utf8.Valid(NameField(input, i))
  {
    TrimKeepsValidity(NameField(input, i));
  }

  /** A "W3" directory with no entries loads as empty from its first six
      bytes: no entry is read. */
  lemma EmptyDirectory(input: seq<byte>)
    requires CountAt + 2 <= |input| && input[0] == LetterW && input[1] == Digit3
    requires Count(input) == 0
    ensures Readable(input) && LoadVxds(input) == Ok([])
  {
  }

  /** A directory whose names are all ASCII loads in full. */
  lemma AsciiNamesLoad(input: seq<byte>)
    requires Readable(input) && SignatureOk(input)
    requires forall i :: 0 <= i < Count(input) ==> Utf8.Ascii(NameField(input, i))
    ensures LoadVxds(input).Ok?
  {
    forall i | 0 <= i < Count(input)
      ensures NameOk(input, i)
    {
      Utf8.AsciiValid(NameField(input, i));
      NameAccepted(input, i);
    }
  }
}
