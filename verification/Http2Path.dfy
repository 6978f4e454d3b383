// percent_decode of main/http2/event_cb.c against section 2.1 of RFC 3986.
module Http2Path {
  import opened Common
  import opened Paths

  const PERCENT: byte := 37
  const QUESTION: byte := 63

  predicate IsHexDigit(c: byte) {
    48 <= c <= 57 || 65 <= c <= 70 || 97 <= c <= 102
  }

  // hex_to_uint
  function HexToUint(c: byte): (v: nat)
    ensures v < 16
  {
    if 48 <= c <= 57 then c - 48
    else if 65 <= c <= 70 then c - 65 + 10
    else if 97 <= c <= 102 then c - 97 + 10
    else 0
  }

  // A percent sign and two hexadecimal digits at position i.
  predicate IsEscape(v: Str, i: int) {
    0 <= i && i + 2 < |v| && v[i] == PERCENT && IsHexDigit(v[i + 1]) && IsHexDigit(v[i + 2])
  }

  function Octet(v: Str, i: nat): byte
    requires IsEscape(v, i)
  {
    16 * HexToUint(v[i + 1]) + HexToUint(v[i + 2])
  }

  // Percent-decoding: each escape stands for the octet it names, every other
  // byte for itself.
  function Decode(v: Str): Str {
    if v == [] then []
    else if IsEscape(v, 0) then [Octet(v, 0)] + Decode(v[3..])
    else [v[0]] + Decode(v[1..])
  }

  // ------------------------------------------------------- what escapes stand for

  // The hexadecimal digits by their values: '0' to '9', then 'A' to 'F' or 'a' to
  // 'f'.
  function Digits(upper: bool): (d: Str)
    ensures |d| == 16
  {
    [48, 49, 50, 51, 52, 53, 54, 55, 56, 57] + if upper then [65, 66, 67, 68, 69, 70] else [97, 98, 99, 100, 101, 102]
  }

  lemma DigitValue(k: nat, upper: bool)
    requires k < 16
    ensures IsHexDigit(Digits(upper)[k]) && HexToUint(Digits(upper)[k]) == k
  {
  }

  lemma HexDigitsAre(c: byte)
    ensures IsHexDigit(c) <==> c in Digits(false) || c in Digits(true)
  {
    if 48 <= c <= 57 {
      assert Digits(false)[c - 48] == c;
    } else if 97 <= c <= 102 {
      assert Digits(false)[c - 87] == c;
    } else if 65 <= c <= 70 {
      assert Digits(true)[c - 55] == c;
    }
  }

  function Escape(b: byte, hiUpper: bool, loUpper: bool): Str {
    [PERCENT, Digits(hiUpper)[b / 16], Digits(loUpper)[b % 16]]
  }

  // An octet may be written as it is, unless it is a percent sign, or escaped, with
  // digits in either case.
  datatype Spelling = Plain | Escaped(hiUpper: bool, loUpper: bool)

  function Spelled(b: byte, how: Spelling): Str {
    match how
    case Plain => if b == PERCENT then Escape(b, false, false) else [b]
    case Escaped(hi, lo) => Escape(b, hi, lo)
  }

  function Encode(s: Str, how: seq<Spelling>): Str
    requires |how| == |s|
  {
    if s == [] then [] else Spelled(s[0], how[0]) + Encode(s[1..], how[1..])
  }

  lemma EscapeDecodes(b: byte, hiUpper: bool, loUpper: bool, rest: Str)
    ensures Decode(Escape(b, hiUpper, loUpper) + rest) == [b] + Decode(rest)
  {
    var v := Escape(b, hiUpper, loUpper) + rest;
    DigitValue(b / 16, hiUpper);
    DigitValue(b % 16, loUpper);
    hide IsHexDigit, HexToUint, Digits;
    assert v[0] == PERCENT && v[1] == Digits(hiUpper)[b / 16] && v[2] == Digits(loUpper)[b % 16];
    assert IsEscape(v, 0) && Octet(v, 0) == b;
    assert v[3..] == rest;
  }

  // However the octets of a string are written, decoding gives the string back.
  lemma {:induction false} DecodeEncode(s: Str, how: seq<Spelling>)
    requires |how| == |s|
    ensures Decode(Encode(s, how)) == s
  {
    if s != [] {
      var b, rest := s[0], Encode(s[1..], how[1..]);
      DecodeEncode(s[1..], how[1..]);
      if how[0].Escaped? {
        EscapeDecodes(b, how[0].hiUpper, how[0].loUpper, rest);
      } else if b == PERCENT {
        EscapeDecodes(b, false, false, rest);
      } else {
        assert ([b] + rest)[1..] == rest;
      }
      assert s == [b] + s[1..];
    }
  }

  // A byte that does not begin a percent sign with two hexadecimal digits stands
  // for itself.
  lemma OthersStay(v: Str)
    requires v != []
    requires var digits := Digits(false) + Digits(true);
      !(|v| >= 3 && v[0] == PERCENT && v[1] in digits && v[2] in digits)
    ensures Decode(v) == [v[0]] + Decode(v[1..])
  {
    if |v| >= 3 {
      HexDigitsAre(v[1]);
      HexDigitsAre(v[2]);
    }
  }

  // How many of the last two bytes an escape has used up. The last copy made for
  // an input of more than three bytes is two bytes long all the same, and so it
  // reads that far beyond the input.
  function Overrun(v: Str): (extra: nat)
    ensures extra <= 2
  {
    if IsEscape(v, |v| - 3) then 2 else if IsEscape(v, |v| - 4) then 1 else 0
  }

  // The string percent_decode(buf, n) returns, where buf is the memory from
  // `value` on.
  function Returned(buf: Str, n: nat): Str
    requires n <= |buf| && (n > 3 ==> n + Overrun(buf[..n]) <= |buf|)
  {
    if n > 3 then Decode(buf[..n]) + buf[n..n + Overrun(buf[..n])] else buf[..n]
  }

  lemma {:induction false} NothingToDecode(v: Str)
    requires |v| <= 2
    ensures Decode(v) == v
  {
    if v != [] {
      NothingToDecode(v[1..]);
      assert v == [v[0]] + v[1..];
    }
  }

  // Escapes do not overlap: a scan that has passed every escape or not reached it
  // takes its next step without landing inside one.
  predicate Aligned(v: Str, i: nat) {
    forall k :: IsEscape(v, k) ==> i <= k || k + 3 <= i
  }

  lemma ScanStart(v: Str)
    ensures Aligned(v, 0)
  {
  }

  lemma StepAligned(v: Str, i: nat)
    requires Aligned(v, i)
    ensures Aligned(v, Next(v, i))
  {
  }

  // One step of the scan decodes one octet.
  lemma DecodeStep(v: Str, i: nat)
    requires i < |v|
    ensures Decode(v[i..]) == [OctetAt(v, i)] + Decode(v[Next(v, i)..])
  {
    assert IsEscape(v, i) <==> IsEscape(v[i..], 0);
    assert v[i..][1..] == v[i + 1..];
    if IsEscape(v, i) {
      assert v[i..][3..] == v[i + 3..];
    }
  }

  lemma ScanStep(v: Str, i: nat, out: Str)
    requires i < |v| && out + Decode(v[i..]) == Decode(v)
    ensures out + [OctetAt(v, i)] + Decode(v[Next(v, i)..]) == Decode(v)
  {
    hide Decode, OctetAt, Next;
    DecodeStep(v, i);
    Associates(out, [OctetAt(v, i)], Decode(v[Next(v, i)..]));
  }

  function Next(v: Str, i: nat): (r: nat)
    ensures i < |v| ==> i < r <= |v|
  {
    if IsEscape(v, i) then i + 3 else i + 1
  }

  function OctetAt(v: Str, i: nat): byte
    requires i < |v|
  {
    if IsEscape(v, i) then Octet(v, i) else v[i]
  }

  // At the end of the scan the last copy supplies the rest, and the overrun.
  lemma LastCopy(value: Str, n: nat, i: nat)
    requires 3 < n <= |value| && n - 2 <= i <= n && n + Overrun(value[..n]) <= |value|
    requires Aligned(value[..n], i) && (i > n - 2 ==> IsEscape(value[..n], i - 3))
    ensures i + 2 <= |value|
    ensures Decode(value[..n][i..]) + value[n..n + Overrun(value[..n])] == value[i..i + 2]
  {
    var v := value[..n];
    assert IsEscape(v, n - 3) ==> i == n;
    assert IsEscape(v, n - 4) ==> i == n - 1;
    NothingToDecode(v[i..]);
  }

  // The buffer has the bytes the last copy reads. The result is terminated and
  // no more than valuelen + 1 bytes are written.
  method PercentDecode(value: Str, valuelen: nat) returns (res: array<byte>, ghost size: nat)
    requires valuelen <= |value|
    requires valuelen > 3 ==> valuelen + Overrun(value[..valuelen]) <= |value|
    ensures fresh(res) && res.Length == valuelen + 1 && size <= valuelen
    ensures res[..size] == Returned(value, valuelen) && res[size] == 0
  {
    res := new byte[valuelen + 1];
    if valuelen > 3 {
      var i, j := Scan(value, valuelen, res);
      LastCopy(value, valuelen, i);
      CopyTwo(res, j, value, i);
      size := j + 2;
    } else {
      forall k | 0 <= k < valuelen {
        res[k] := value[k];
      }
      res[valuelen] := 0;
      size := valuelen;
    }
  }

  // The final copy of two bytes, and the terminator.
  method CopyTwo(res: array<byte>, j: nat, value: Str, i: nat)
    requires j + 2 < res.Length && i + 2 <= |value|
    modifies res
    ensures res[..j + 2] == old(res[..j]) + value[i..i + 2] && res[j + 2] == 0
  {
    res[j], res[j + 1] := value[i], value[i + 1];
    res[j + 2] := 0;
  }

  // The loop of percent_decode. The distance between the two indices is twice the
  // number of escapes decoded.
  method Scan(value: Str, valuelen: nat, res: array<byte>) returns (i: nat, j: nat)
    requires 3 < valuelen <= |value| && res.Length == valuelen + 1
    modifies res
    ensures valuelen - 2 <= i <= valuelen && j + 2 <= valuelen
    ensures Aligned(value[..valuelen], i) && (i > valuelen - 2 ==> IsEscape(value[..valuelen], i - 3))
    ensures res[..j] + Decode(value[..valuelen][i..]) == Decode(value[..valuelen])
  {
    ghost var v := value[..valuelen];
    ghost var escapes := 0;
    ghost var out: Str := [];
    i, j := 0, 0;
    assert v[0..] == v;
    hide Decode, Aligned;
    ScanStart(v);
    while i < valuelen - 2
      invariant i <= valuelen && i == j + 2 * escapes
      invariant i > valuelen - 2 ==> escapes > 0 && IsEscape(v, i - 3)
      invariant Aligned(v, i) && out + Decode(v[i..]) == Decode(v)
      invariant res[..j] == out
    {
      StepAligned(v, i);
      ScanStep(v, i, out);
      out := out + [OctetAt(v, i)];
      if value[i] != PERCENT || !IsHexDigit(value[i + 1]) || !IsHexDigit(value[i + 2]) {
        res[j] := value[i];
        i := i + 1;
      } else {
        res[j] := 16 * HexToUint(value[i + 1]) + HexToUint(value[i + 2]);
        i := i + 3;
        escapes := escapes + 1;
      }
      j := j + 1;
    }
  }

  lemma {:induction false} DecodeShorter(v: Str)
    ensures |Decode(v)| <= |v|
    ensures IsEscape(v, 0) ==> |Decode(v)| < |v|
  {
    if v != [] {
      DecodeShorter(if IsEscape(v, 0) then v[3..] else v[1..]);
    }
  }

  // Byte by byte, the result is the decoding exactly if no escape ends in the last
  // two bytes.
  lemma BytesDecodeExactlyWhen(buf: Str, n: nat)
    requires n <= |buf| && (n > 3 ==> n + Overrun(buf[..n]) <= |buf|)
    ensures Returned(buf, n) == Decode(buf[..n]) <==> Overrun(buf[..n]) == 0
  {
    var v := buf[..n];
    if n == 3 {
      DecodeShorter(v);
      if !IsEscape(v, 0) {
        NothingToDecode(v[1..]);
        assert v == [v[0]] + v[1..];
      }
    } else if n < 3 {
      NothingToDecode(v);
    } else if Overrun(v) > 0 {
      assert |Returned(buf, n)| == |Decode(v)| + Overrun(v);
    }
  }

  // As strings go, what follows a zero byte does not count: an escape in the last
  // two bytes does no harm if a zero byte has been decoded, or if the first byte
  // behind the input is one. It always does for an input of three bytes.
  predicate ReturnsDecoding(buf: Str, n: nat)
    requires n <= |buf| && (n > 3 ==> n + Overrun(buf[..n]) <= |buf|)
  {
    Overrun(buf[..n]) == 0 || (n > 3 && (0 in Decode(buf[..n]) || buf[n] == 0))
  }

  // percent_decode returns the decoding of its input exactly under this condition.
  lemma DecodesExactlyWhen(buf: Str, n: nat)
    requires n <= |buf| && (n > 3 ==> n + Overrun(buf[..n]) <= |buf|)
    ensures CString(Returned(buf, n)) == CString(Decode(buf[..n])) <==> ReturnsDecoding(buf, n)
  {
    var v := buf[..n];
    BytesDecodeExactlyWhen(buf, n);
    hide Decode;
    if Overrun(v) > 0 {
      if n > 3 {
        TailMatters(Decode(v), buf[n..n + Overrun(v)]);
      } else {
        DecodeShorter(v);
        CStringIs(v, 3);
      }
    }
  }

  // Bytes appended leave the C string as it is exactly if a zero byte comes first.
  lemma TailMatters(s: Str, tail: Str)
    requires tail != []
    ensures CString(s + tail) == CString(s) <==> (0 in s || tail[0] == 0)
  {
    CStringAppend(s, tail);
    CStringAppend(s, []);
    assert s + [] == s && CString([]) == [];
    assert |CString(s + tail)| == |CString(s)| <==> (0 in s || CString(tail) == []);
  }

  // "%41" alone is copied as it is; "/a%41" followed by "?x" takes both along.
  lemma DecodeFails()
    ensures Returned([37, 52, 49], 3) == [37, 52, 49] && Decode([37, 52, 49]) == [65]
    ensures Returned([47, 97, 37, 52, 49, 63, 120], 5) == [47, 97, 65, 63, 120]
  {
    var escape, buf: Str := [37, 52, 49], [47, 97, 37, 52, 49, 63, 120];
    assert IsEscape(escape, 0) && Octet(escape, 0) == 65 && Decode(escape[3..]) == [];
    assert buf[..5] == [47, 97] + escape && buf[5..7] == [63, 120];
    assert buf[..5][1..] == [97] + escape && ([97] + escape)[1..] == escape;
    assert Decode([97] + escape) == [97, 65];
    assert Overrun(buf[..5]) == 2;
  }

  // ------------------------------------------------------- from header to file

  // Where the query starts, or the end of the header value.
  function QueryStart(value: Str, valuelen: nat): (j: nat)
    requires valuelen <= |value|
    ensures j <= valuelen && (j < valuelen ==> value[j] == QUESTION)
    ensures forall k :: 0 <= k < j ==> value[k] != QUESTION
  {
    if valuelen == 0 then 0
    else
      var j := QueryStart(value, valuelen - 1);
      if j < valuelen - 1 || value[j] == QUESTION then j else valuelen
  }

  // The path that check_path and root_router see for a :path header.
  function Target(value: Str, valuelen: nat): Str
    requires Readable(value, valuelen)
  {
    CString(Returned(value, QueryStart(value, valuelen)))
  }

  // The memory behind the header value reaches as far as percent_decode reads.
  predicate Readable(value: Str, valuelen: nat) {
    && valuelen <= |value|
    && var j := QueryStart(value, valuelen);
    j > 3 ==> j + Overrun(value[..j]) <= |value|
  }

  // A path that was escaped in whatever way is what the server sees, if
  // percent_decode returns the decoding.
  lemma EscapingIsSeenThrough(value: Str, valuelen: nat, path: Str, how: seq<Spelling>)
    requires Readable(value, valuelen) && |how| == |path|
    requires value[..QueryStart(value, valuelen)] == Encode(path, how)
    requires ReturnsDecoding(value, QueryStart(value, valuelen))
    ensures Target(value, valuelen) == CString(path)
  {
    DecodesExactlyWhen(value, QueryStart(value, valuelen));
    DecodeEncode(path, how);
  }

  // on_header_callback for :path.
  method OnPathHeader(value: Str, valuelen: nat) returns (url: array<byte>)
    requires Readable(value, valuelen)
    ensures fresh(url) && 0 in url[..] && CString(url[..]) == Target(value, valuelen)
  {
    var j := 0;
    while j < valuelen && value[j] != QUESTION
      invariant j <= QueryStart(value, valuelen)
    {
      j := j + 1;
    }
    ghost var size;
    url, size := PercentDecode(value, j);
    CStringOfTerminated(url[..], size);
    assert url[..][..size] == url[..size];
  }

  // on_request_recv, where root_router is called without routes: the file name
  // that is opened, if the request gets that far.
  method OnRequestRecv(url: array<byte>) returns (file: Option<Str>)
    requires 0 in url[..]
    ensures file == if CheckPath(CString(url[..])) then Some(Stripped(CString(url[..]))) else None
  {
    var path := CString(url[..]);
    if !CheckPath(path) {
      return None;
    }
    var relPath := StripSlashes(path);
    file := Some(relPath);
  }

  // However the path was escaped: a file is opened exactly if the path returned by
  // percent_decode is absolute, without backslash and normal in the sense of
  // remove_dot_segments; and its name never leads out of the starting directory.
  // That path is the decoding of the header value up to the query exactly if
  // percent_decode returns it.
  method ServePath(value: Str, valuelen: nat) returns (file: Option<Str>)
    requires Readable(value, valuelen)
    ensures var target := Target(value, valuelen);
      file.Some? <==>
        target != [] && target[0] == SLASH && BACKSLASH !in target && RemoveDotSegments(target, []) == target
    ensures file.Some? ==>
      && file.value == Stripped(Target(value, valuelen))
      && (file.value != [] ==> file.value[0] != SLASH)
      && NoDotSegment(file.value) && StaysBelow(Segments(file.value), 0)
    ensures var j := QueryStart(value, valuelen);
      Target(value, valuelen) == CString(Decode(value[..j])) <==> ReturnsDecoding(value, j)
  {
    DecodesExactlyWhen(value, QueryStart(value, valuelen));
    var url := OnPathHeader(value, valuelen);
    file := OnRequestRecv(url);
    CheckedExactlyWhenNormal(Target(value, valuelen));
    if file.Some? {
      LocalFileStaysBelow(Target(value, valuelen));
    }
  }

  // nghttp2 ends header values with a zero byte. So a path of more than three
  // bytes without a query is always decoded; with a query it is, exactly if no
  // escape ends in its last two bytes or it names the zero byte.
  lemma DecodedUpToQuery(value: Str, valuelen: nat)
    requires Readable(value, valuelen) && valuelen < |value| && value[valuelen] == 0
    requires QueryStart(value, valuelen) > 3
    ensures var j := QueryStart(value, valuelen);
      Target(value, valuelen) == CString(Decode(value[..j]))
      <==> (j == valuelen || Overrun(value[..j]) == 0 || 0 in Decode(value[..j]))
  {
    DecodesExactlyWhen(value, QueryStart(value, valuelen));
  }
}
