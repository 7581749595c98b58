/** The Redis health probe: its request encoder and its chunk-wise reply reader (RESP2). */
module Resp {
  import opened Wrappers
  import opened Text
  import opened Utf8
  import Decimal

  const CR: byte := 13
  const LF: byte := 10
  const CRLF: seq<byte> := [13, 10]
  const DOLLAR: byte := 36
  const STAR: byte := 42

  predicate IsAscii(text: string)
  {
    forall i | 0 <= i < |text| :: text[i] < 128 as char
  }

  lemma AsciiIff(text: string)
    ensures IsAscii(text) <==> !exists c | c in text :: c as int >= 128
  {
    if !IsAscii(text) {
      var i :| 0 <= i < |text| && text[i] >= 128 as char;
      assert text[i] in text;
    }
  }

  function Ascii(text: string): (bytes: seq<byte>)
    requires IsAscii(text)
    ensures |bytes| == |text|
  {
    seq(|text|, i requires 0 <= i < |text| => text[i] as int)
  }

  /** The characters whose codes are the bytes. */
  function Chars(bytes: seq<byte>): string
  {
    seq(|bytes|, i requires 0 <= i < |bytes| => bytes[i] as char)
  }

  function Digits(n: nat): (bytes: seq<byte>)
    ensures bytes != [] && forall i | 0 <= i < |bytes| :: 48 <= bytes[i] <= 57
    ensures CR !in bytes && LF !in bytes
  {
    assert forall i | 0 <= i < |Decimal.OfNat(n)| :: Decimal.IsDigit(Decimal.OfNat(n)[i]);
    Ascii(Decimal.OfNat(n))
  }

  lemma ReadDigits(n: nat)
    ensures Decimal.ToInt(Chars(Digits(n))) == Some(n)
  {
    DigitsAreChars(n);
    Decimal.ToIntOfInt(n);
  }

  // --- Requests ---------------------------------------------------------------------------------

  /** A bulk string: its length, then its bytes. */
  function Bulk(part: seq<byte>): seq<byte>
  {
    [DOLLAR] + Digits(|part|) + CRLF + part + CRLF
  }

  function Bulks(parts: seq<seq<byte>>): seq<byte>
  {
    if parts == [] then [] else Bulk(parts[0]) + Bulks(parts[1..])
  }

  function Request(parts: seq<seq<byte>>): seq<byte>
  {
    [STAR] + Digits(|parts|) + CRLF + Bulks(parts)
  }

  /** On the wire: a bulk string is `$`, its length in decimal, a line end, its bytes and a line end; a request is
      `*`, the number of its parts in decimal, a line end and its parts. */
  lemma WireFormat(part: seq<byte>, parts: seq<seq<byte>>)
    ensures Chars(Bulk(part)) == "$" + Decimal.OfNat(|part|) + "\r\n" + Chars(part) + "\r\n"
    ensures Chars(Request(parts)) == "*" + Decimal.OfNat(|parts|) + "\r\n" + Chars(Bulks(parts))
    ensures Chars(Bulks([part] + parts)) == Chars(Bulk(part)) + Chars(Bulks(parts)) && Chars(Bulks([])) == ""
  {
    DigitsAreChars(|part|);
    DigitsAreChars(|parts|);
    assert Chars([DOLLAR]) == "$" && Chars([STAR]) == "*" && Chars(CRLF) == "\r\n";
    CharsOfFour([DOLLAR], Digits(|part|), CRLF, part);
    CharsConcat([DOLLAR] + Digits(|part|) + CRLF + part, CRLF);
    CharsOfFour([STAR], Digits(|parts|), CRLF, Bulks(parts));
    CharsOfMore(part, parts);
  }

  lemma CharsOfMore(part: seq<byte>, parts: seq<seq<byte>>)
    ensures Chars(Bulks([part] + parts)) == Chars(Bulk(part)) + Chars(Bulks(parts)) && Chars(Bulks([])) == ""
  {
    assert ([part] + parts)[1..] == parts;
    CharsConcat(Bulk(part), Bulks(parts));
  }

  lemma CharsOfFour(a: seq<byte>, b: seq<byte>, c: seq<byte>, d: seq<byte>)
    ensures Chars(a + b + c + d) == Chars(a) + Chars(b) + Chars(c) + Chars(d)
  {
    CharsConcat(a + b + c, d);
    CharsConcat(a + b, c);
    CharsConcat(a, b);
  }

  lemma CharsConcat(a: seq<byte>, b: seq<byte>)
    ensures Chars(a + b) == Chars(a) + Chars(b)
  {
  }

  lemma DigitsAreChars(n: nat)
    ensures Chars(Digits(n)) == Decimal.OfNat(n)
  {
    assert forall i | 0 <= i < |Decimal.OfNat(n)| :: Decimal.IsDigit(Decimal.OfNat(n)[i]);
  }

  /** The encoded parts, unless one of them is not ASCII. */
  function EncodeParts(parts: seq<string>): Option<seq<seq<byte>>>
  {
    if exists i | 0 <= i < |parts| :: !IsAscii(parts[i]) then None
    else Some(seq(|parts|, i requires 0 <= i < |parts| => Ascii(parts[i])))
  }

  /** Python's `raw.partition(CRLF)`, if the separator is there. */
  function Partition(raw: seq<byte>): (parts: Option<(seq<byte>, seq<byte>)>)
    ensures parts.Some? ==> parts.value.0 + CRLF + parts.value.1 == raw
  {
    if |raw| < 2 then None
    else if raw[..2] == CRLF then Some(([], raw[2..]))
    else
      match Partition(raw[1..])
      case None => None
      case Some((header, body)) => Some(([raw[0]] + header, body))
  }

  /** Reading a type byte, a number and the end of the line. */
  function TakeNumber(kind: byte, bytes: seq<byte>): Option<(int, seq<byte>)>
  {
    match Partition(bytes)
    case None => None
    case Some((header, rest)) =>
      if header == [] || header[0] != kind then None
      else
        match Decimal.ToInt(Chars(header[1..]))
        case None => None
        case Some(n) => Some((n, rest))
  }

  function DecodeBulks(n: nat, bytes: seq<byte>): Option<(seq<seq<byte>>, seq<byte>)>
  {
    if n == 0 then Some(([], bytes))
    else
      match TakeNumber(DOLLAR, bytes)
      case None => None
      case Some((size, rest)) =>
        if size < 0 || |rest| < size + 2 || rest[size..size + 2] != CRLF then None
        else
          match DecodeBulks(n - 1, rest[size + 2..])
          case None => None
          case Some((parts, left)) => Some(([rest[..size]] + parts, left))
  }

  /** A server's reading of a request: an array of bulk strings and nothing after it. */
  function DecodeRequest(bytes: seq<byte>): Option<seq<seq<byte>>>
  {
    match TakeNumber(STAR, bytes)
    case None => None
    case Some((n, rest)) =>
      if n < 0 then None
      else
        match DecodeBulks(n, rest)
        case None => None
        case Some((parts, left)) => if left == [] then Some(parts) else None
  }

  lemma {:induction false} PartitionAtFirst(header: seq<byte>, body: seq<byte>)
    requires CR !in header
    ensures Partition(header + CRLF + body) == Some((header, body))
    decreases |header|
  {
    var raw := header + CRLF + body;
    if header == [] {
      assert raw[..2] == CRLF && raw[2..] == body;
    } else {
      assert raw[..2][0] == header[0] && header[0] in header;
      assert raw[1..] == header[1..] + CRLF + body;
      PartitionAtFirst(header[1..], body);
      assert [header[0]] + header[1..] == header;
    }
  }

  lemma TakeNumberOfLine(kind: byte, n: nat, rest: seq<byte>)
    requires kind != CR
    ensures TakeNumber(kind, [kind] + Digits(n) + CRLF + rest) == Some((n, rest))
  {
    PartitionAtFirst([kind] + Digits(n), rest);
    assert ([kind] + Digits(n))[1..] == Digits(n);
    ReadDigits(n);
  }

  lemma {:induction false} DecodeEncodedBulks(parts: seq<seq<byte>>)
    ensures DecodeBulks(|parts|, Bulks(parts)) == Some((parts, []))
    decreases |parts|
  {
    if parts != [] {
      DecodeEncodedBulks(parts[1..]);
      DecodeOneMore(parts[0], parts[1..], Bulks(parts[1..]));
      assert [parts[0]] + parts[1..] == parts;
    }
  }

  lemma DecodeOneMore(part: seq<byte>, others: seq<seq<byte>>, more: seq<byte>)
    requires DecodeBulks(|others|, more) == Some((others, []))
    ensures DecodeBulks(|others| + 1, Bulk(part) + more) == Some(([part] + others, []))
  {
    DecodeFirstBulk(part, |others| + 1, more);
  }

  lemma DecodeFirstBulk(part: seq<byte>, n: nat, more: seq<byte>)
    requires n > 0 && DecodeBulks(n - 1, more).Some?
    ensures DecodeBulks(n, Bulk(part) + more)
         == Some(([part] + DecodeBulks(n - 1, more).value.0, DecodeBulks(n - 1, more).value.1))
  {
    var rest := part + CRLF + more;
    assert Bulk(part) + more == [DOLLAR] + Digits(|part|) + CRLF + rest;
    TakeNumberOfLine(DOLLAR, |part|, rest);
    assert rest[|part|..|part| + 2] == CRLF && rest[|part| + 2..] == more && rest[..|part|] == part;
  }

  /** A server reads back exactly the parts that were sent, whatever bytes they hold. */
  lemma RequestRoundTrip(parts: seq<seq<byte>>)
    ensures DecodeRequest(Request(parts)) == Some(parts)
  {
    TakeNumberOfLine(STAR, |parts|, Bulks(parts));
    DecodeEncodedBulks(parts);
  }

  /** The same from the command's own words: they arrive unchanged, if they can be encoded at all. */
  lemma CommandRoundTrip(parts: seq<string>)
    ensures EncodeParts(parts).None? <==> exists i | 0 <= i < |parts| :: exists c | c in parts[i] :: c as int >= 128
    ensures EncodeParts(parts).Some? ==>
              var received := DecodeRequest(Request(EncodeParts(parts).value));
              && received.Some? && |received.value| == |parts|
              && forall i | 0 <= i < |parts| :: Chars(received.value[i]) == parts[i]
  {
    forall i | 0 <= i < |parts| ensures IsAscii(parts[i]) <==> !exists c | c in parts[i] :: c as int >= 128 {
      AsciiIff(parts[i]);
    }
    if EncodeParts(parts).Some? {
      RequestRoundTrip(EncodeParts(parts).value);
      forall i | 0 <= i < |parts| ensures Chars(EncodeParts(parts).value[i]) == parts[i] {
        assert EncodeParts(parts).value[i] == Ascii(parts[i]);
      }
    }
  }

  // --- Replies ------------------------------------------------------------------------------------

  const CAP: nat := 65536
  const CHUNK: nat := 4096

  /** What the peer does after its last chunk: close the connection, or send nothing for too long. */
  datatype Ending = Closed | Silent

  datatype ReadError = TimedOut | BadLength | NotReady

  function Join(chunks: seq<seq<byte>>): seq<byte>
  {
    if chunks == [] then [] else Join(chunks[..|chunks| - 1]) + chunks[|chunks| - 1]
  }

  /** What `recv` hands out: never nothing, and never more than it was asked for. */
  predicate Received(chunks: seq<seq<byte>>)
  {
    forall i | 0 <= i < |chunks| :: 1 <= |chunks[i]| <= CHUNK
  }

  lemma ReceivedIff(chunks: seq<seq<byte>>)
    ensures Received(chunks) <==> forall i | 0 <= i < |chunks| :: 1 <= |chunks[i]| <= 4096
  {
  }

  predicate IsInline(kind: byte)
  {
    kind == 43 || kind == 45 || kind == 58
  }

  /** The type bytes of simple strings, errors and integers. */
  lemma InlineKinds(kind: byte)
    ensures IsInline(kind) <==> kind as char in "+-:"
  {
    assert kind as char in "+-:" <==> kind as char == '+' || kind as char == '-' || kind as char == ':';
  }

  datatype Verdict = More | Done | Malformed

  /** The reader's tests after the newest of these chunks. */
  function Check(chunks: seq<seq<byte>>): Verdict
    requires chunks != [] && Received(chunks)
  {
    if Occurs(CRLF, chunks[|chunks| - 1]) && IsInline(chunks[0][0]) then Done
    else if chunks[0][0] == DOLLAR && Occurs(CRLF, Join(chunks)[1..]) then CheckBulk(Join(chunks))
    else More
  }

  function CheckBulk(raw: seq<byte>): Verdict
  {
    match TakeNumber(DOLLAR, raw)
    case None => Malformed
    case Some((expected, body)) => if |body| >= expected + 2 then Done else More
  }

  /** The reader asks for another chunk after `k` chunks. */
  predicate GoesOn(chunks: seq<seq<byte>>, k: nat)
    requires k <= |chunks| && Received(chunks)
  {
    |Join(chunks[..k])| <= CAP && (k > 0 ==> Check(chunks[..k]) == More)
  }

  /** Reading ends after exactly `k` chunks. */
  predicate EndsAfter(chunks: seq<seq<byte>>, k: nat)
    requires Received(chunks)
  {
    && k <= |chunks|
    && (forall j: nat | j < k :: GoesOn(chunks, j))
    && (k == |chunks| || !GoesOn(chunks, k))
  }

  function Finish(response: seq<byte>): Result<seq<byte>, ReadError>
  {
    if response == [] || response[0] == 45 then Err(NotReady) else Ok(response)
  }

  /** What the probe makes of the first `k` chunks once it stops reading. */
  function Outcome(chunks: seq<seq<byte>>, k: nat, ending: Ending): Result<seq<byte>, ReadError>
    requires k <= |chunks| && Received(chunks)
  {
    if GoesOn(chunks, k) && ending == Silent then Err(TimedOut)
    else if k > 0 && Check(chunks[..k]) == Malformed then Err(BadLength)
    else Finish(Join(chunks[..k]))
  }

  /** The reader has taken `k` chunks and is not done yet. */
  predicate Reading(chunks: seq<seq<byte>>, k: nat)
    requires Received(chunks)
  {
    && k <= |chunks|
    && (forall j: nat | j < k :: GoesOn(chunks, j))
    && (k > 0 ==> Check(chunks[..k]) == More)
  }

  /** Reading ends after exactly this many chunks, with exactly this outcome, holding no more than the cap
      and one chunk. */
  predicate Ends(chunks: seq<seq<byte>>, ending: Ending, used: nat, reply: Result<seq<byte>, ReadError>)
    requires Received(chunks)
  {
    && EndsAfter(chunks, used) && reply == Outcome(chunks, used, ending)
    && |Join(chunks[..used])| <= 65536 + 4096
  }

  /** One more chunk. */
  lemma ReadsOn(chunks: seq<seq<byte>>, k: nat)
    requires Received(chunks) && Reading(chunks, k) && |Join(chunks[..k])| <= CAP && k < |chunks|
    ensures chunks[..k] + [chunks[k]] == chunks[..k + 1]
    ensures |Join(chunks[..k + 1])| <= CAP + CHUNK
    ensures forall j: nat | j < k + 1 :: GoesOn(chunks, j)
  {
    JoinSnoc(chunks, k + 1);
    GoesOnHere(chunks, k);
  }

  lemma GoesOnHere(chunks: seq<seq<byte>>, k: nat)
    requires Received(chunks) && Reading(chunks, k) && |Join(chunks[..k])| <= CAP
    ensures GoesOn(chunks, k)
  {
  }

  /** The end because the peer sends nothing more. */
  lemma EndsByPeer(chunks: seq<seq<byte>>, k: nat, ending: Ending)
    requires Received(chunks) && Reading(chunks, k) && |Join(chunks[..k])| <= CAP && k == |chunks|
    ensures Ends(chunks, ending, k, if ending == Silent then Err(TimedOut) else Finish(Join(chunks[..k])))
  {
  }

  /** The end because of the tests after the newest chunk. */
  lemma EndsByVerdict(chunks: seq<seq<byte>>, k: nat, ending: Ending)
    requires Received(chunks) && 0 < k <= |chunks| && |Join(chunks[..k])| <= CAP + CHUNK
    requires forall j: nat | j < k :: GoesOn(chunks, j)
    requires Check(chunks[..k]) != More
    ensures Ends(chunks, ending, k,
                 if Check(chunks[..k]) == Malformed then Err(BadLength) else Finish(Join(chunks[..k])))
  {
  }

  /** The end because the cap is passed. */
  lemma EndsByCap(chunks: seq<seq<byte>>, k: nat, ending: Ending)
    requires Received(chunks) && Reading(chunks, k) && CAP < |Join(chunks[..k])| <= CAP + CHUNK
    ensures Ends(chunks, ending, k, Finish(Join(chunks[..k])))
  {
  }

  /** The reader's loop: a chunk per iteration. */
  method ReadReply(chunks: seq<seq<byte>>, ending: Ending)
    returns (reply: Result<seq<byte>, ReadError>, used: nat)
    requires Received(chunks)
    ensures Ends(chunks, ending, used, reply)
  {
    var held: seq<seq<byte>> := [];
    used := 0;
    assert chunks[..0] == [];
    while |Join(held)| <= CAP
      invariant Reading(chunks, used) && held == chunks[..used]
      invariant |Join(held)| <= CAP + CHUNK
      decreases |chunks| - used
    {
      if used == |chunks| {
        EndsByPeer(chunks, used, ending);
        reply := if ending == Silent then Err(TimedOut) else Finish(Join(held));
        return;
      }
      held := held + [chunks[used]];
      ReadsOn(chunks, used);
      used := used + 1;
      var verdict := TestNewest(held);
      if verdict != More {
        EndsByVerdict(chunks, used, ending);
        reply := if verdict == Malformed then Err(BadLength) else Finish(Join(held));
        return;
      }
    }
    EndsByCap(chunks, used, ending);
    reply := Finish(Join(held));
  }

  /** The two tests that follow each `recv`. */
  method TestNewest(held: seq<seq<byte>>) returns (verdict: Verdict)
    requires held != [] && Received(held)
    ensures verdict == Check(held)
  {
    var kind := held[0][0];
    if Occurs(CRLF, held[|held| - 1]) && IsInline(kind) {
      return Done;
    }
    var raw := Join(held);
    if kind == DOLLAR && Occurs(CRLF, raw[1..]) {
      match TakeNumber(DOLLAR, raw) {
        case None =>
          return Malformed;
        case Some((expected, body)) =>
          if |body| >= expected + 2 {
            return Done;
          }
      }
    }
    verdict := More;
  }

  lemma JoinSnoc(chunks: seq<seq<byte>>, k: nat)
    requires 0 < k <= |chunks|
    ensures Join(chunks[..k]) == Join(chunks[..k - 1]) + chunks[k - 1]
  {
    assert chunks[..k][..k - 1] == chunks[..k - 1];
  }

  lemma EndIsUnique(chunks: seq<seq<byte>>, k: nat, l: nat)
    requires Received(chunks) && EndsAfter(chunks, k) && EndsAfter(chunks, l)
    ensures k == l
  {
  }

  lemma {:induction false} JoinPrefix(chunks: seq<seq<byte>>, j: nat, k: nat)
    requires j <= k <= |chunks|
    ensures Join(chunks[..j]) <= Join(chunks[..k])
    ensures Received(chunks) && j < k ==> |Join(chunks[..j])| < |Join(chunks[..k])|
    ensures Received(chunks) && 0 < k ==> Join(chunks[..k]) != [] && Join(chunks[..k])[0] == chunks[0][0]
    decreases k
  {
    if j < k {
      JoinSnoc(chunks, k);
      JoinPrefix(chunks, j, k - 1);
    } else if 0 < k {
      JoinSnoc(chunks, k);
      JoinPrefix(chunks, k - 1, k - 1);
    }
  }

  /** These chunks are the whole of what the peer sends, cut somehow. */
  predicate Splits(chunks: seq<seq<byte>>, bytes: seq<byte>)
  {
    Received(chunks) && Join(chunks) == bytes
  }

  /** The reader answers for all that these chunks hold, and does so as soon as the last one is in, without
      another `recv`: it would find a peer that stays silent. */
  predicate ReadsExactly(chunks: seq<seq<byte>>)
    requires Received(chunks)
  {
    && EndsAfter(chunks, |chunks|)
    && Outcome(chunks, |chunks|, Silent) == Finish(Join(chunks))
  }

  // --- Bulk replies -------------------------------------------------------------------------------

  lemma NoLineEnd(bytes: seq<byte>, stop: byte)
    requires stop == CR || stop == LF
    requires stop !in bytes
    ensures !Occurs(CRLF, bytes)
  {
    if Occurs(CRLF, bytes) {
      var i: nat :| i <= |bytes| && OccursAt(CRLF, bytes, i);
      OccursAtIndex(CRLF, bytes, i, 0);
      OccursAtIndex(CRLF, bytes, i, 1);
      assert false;
    }
  }

  /** On a proper prefix of a bulk reply the reader goes on; on the whole of it, it is done. */
  lemma CheckPrefixOfBulk(payload: seq<byte>, raw: seq<byte>)
    requires raw != [] && raw <= Bulk(payload)
    ensures (if Occurs(CRLF, raw[1..]) then CheckBulk(raw) else More)
         == if raw == Bulk(payload) then Done else More
  {
    var header := [DOLLAR] + Digits(|payload|);
    var rest := payload + CRLF;
    var frame := Bulk(payload);
    assert frame == header + CRLF + rest;
    if |raw| <= |header| + 1 {
      assert raw[1..] == frame[1..|raw|];
      assert LF !in raw[1..] by {
        assert header[1..] == Digits(|payload|);
        assert forall i | 1 <= i < |raw| :: frame[i] != LF;
      }
      NoLineEnd(raw[1..], LF);
    } else {
      var body := raw[|header| + 2..];
      assert raw == header + CRLF + body by {
        assert raw[..|header| + 2] == frame[..|header| + 2] == header + CRLF;
      }
      TakeNumberOfLine(DOLLAR, |payload|, body);
      assert raw[1..][|header| - 1..|header| + 1] == CRLF;
      assert OccursAt(CRLF, raw[1..], |header| - 1);
    }
  }

  lemma CheckBulkChunks(payload: seq<byte>, chunks: seq<seq<byte>>, k: nat)
    requires Splits(chunks, Bulk(payload)) && 0 < k <= |chunks|
    ensures Check(chunks[..k]) == if k == |chunks| then Done else More
  {
    assert chunks[..|chunks|] == chunks;
    JoinPrefix(chunks, k, |chunks|);
    assert chunks[..k][0] == chunks[0];
    assert chunks[0][0] == DOLLAR;
    CheckPrefixOfBulk(payload, Join(chunks[..k]));
  }

  /** A bulk reply cut in any way is read exactly if and only if all chunks but the last fit the cap. */
  lemma BulkReadExactlyIff(payload: seq<byte>, chunks: seq<seq<byte>>)
    requires Splits(chunks, Bulk(payload))
    ensures chunks != [] && Finish(Bulk(payload)) == Ok(Bulk(payload))
    ensures ReadsExactly(chunks) <==> |Join(chunks[..|chunks| - 1])| <= 65536
  {
    var n := |chunks|;
    assert chunks[..n] == chunks;
    CheckBulkChunks(payload, chunks, n);
    forall j: nat | j < n ensures GoesOn(chunks, j) <==> |Join(chunks[..j])| <= CAP {
      if j > 0 {
        CheckBulkChunks(payload, chunks, j);
      }
    }
    forall j: nat | j < n ensures |Join(chunks[..j])| <= |Join(chunks[..n - 1])| {
      JoinPrefix(chunks, j, n - 1);
    }
    if ReadsExactly(chunks) {
      assert GoesOn(chunks, n - 1);
    }
  }

  /** `bytes` one by one. */
  function Singly(bytes: seq<byte>): seq<seq<byte>>
  {
    seq(|bytes|, i requires 0 <= i < |bytes| => [bytes[i]])
  }

  lemma {:induction false} JoinSingly(bytes: seq<byte>, k: nat)
    requires k <= |bytes|
    ensures Join(Singly(bytes)[..k]) == bytes[..k]
    decreases k
  {
    if k > 0 {
      JoinSnoc(Singly(bytes), k);
      JoinSingly(bytes, k - 1);
      assert bytes[..k] == bytes[..k - 1] + [bytes[k - 1]];
    }
  }

  lemma SmallBulkReadExactly(payload: seq<byte>, chunks: seq<seq<byte>>)
    requires |Bulk(payload)| <= CAP + 1 && Splits(chunks, Bulk(payload))
    ensures ReadsExactly(chunks)
  {
    BulkReadExactlyIff(payload, chunks);
    assert chunks[..|chunks|] == chunks;
    JoinPrefix(chunks, |chunks| - 1, |chunks|);
  }

  /** Byte by byte, the cap is passed before the last one. */
  lemma SinglySplits(bytes: seq<byte>)
    ensures Splits(Singly(bytes), bytes) && |Singly(bytes)| == |bytes|
  {
    JoinSingly(bytes, |bytes|);
    assert Singly(bytes)[..|bytes|] == Singly(bytes) && bytes[..|bytes|] == bytes;
  }

  lemma SinglyHeld(bytes: seq<byte>, k: nat)
    requires k <= |bytes|
    ensures |Join(Singly(bytes)[..k])| == k
  {
    JoinSingly(bytes, k);
  }

  lemma NotReadPastCap(payload: seq<byte>, chunks: seq<seq<byte>>, k: nat)
    requires Splits(chunks, Bulk(payload)) && k == |chunks| - 1 && |Join(chunks[..k])| > CAP
    ensures !ReadsExactly(chunks)
  {
    BulkReadExactlyIff(payload, chunks);
  }

  lemma LargeBulkNotReadSingly(payload: seq<byte>, frame: seq<byte>)
    requires frame == Bulk(payload) && |frame| > CAP + 1
    ensures Splits(Singly(frame), Bulk(payload)) && !ReadsExactly(Singly(frame))
  {
    var k := |frame| - 1;
    SinglySplits(frame);
    SinglyHeld(frame, k);
    NotReadPastCap(payload, Singly(frame), k);
  }

  /** The reader is independent of the cuts exactly for bulk replies of at most one byte above the cap. */
  lemma BulkChunkingIndependence(payload: seq<byte>)
    ensures (forall chunks | Splits(chunks, Bulk(payload)) :: ReadsExactly(chunks))
       <==> |Bulk(payload)| <= 65537
  {
    if |Bulk(payload)| <= CAP + 1 {
      forall chunks | Splits(chunks, Bulk(payload)) ensures ReadsExactly(chunks) {
        SmallBulkReadExactly(payload, chunks);
      }
    } else {
      LargeBulkNotReadSingly(payload, Bulk(payload));
    }
  }

  // --- Inline replies -----------------------------------------------------------------------------

  /** A simple string, an error or an integer: one line without a line break inside. */
  function Line(kind: byte, text: seq<byte>): seq<byte>
  {
    [kind] + text + CRLF
  }

  /** The line's end arrives in one piece. */
  predicate EndUncut(chunks: seq<seq<byte>>)
  {
    chunks != [] && |chunks[|chunks| - 1]| >= 2
  }

  lemma CheckInlineChunks(kind: byte, text: seq<byte>, chunks: seq<seq<byte>>, k: nat)
    requires kind as char in "+-:" && CR !in text && LF !in text
    requires Splits(chunks, Line(kind, text)) && 0 < k <= |chunks|
    ensures Check(chunks[..k]) == if k == |chunks| && EndUncut(chunks) then Done else More
  {
    InlineKinds(kind);
    var n := |chunks|;
    var line := Line(kind, text);
    assert chunks[..n] == chunks && chunks[..k][0] == chunks[0] && chunks[..k][k - 1] == chunks[k - 1];
    JoinPrefix(chunks, k, n);
    JoinSnoc(chunks, k);
    var last := chunks[k - 1];
    var start := |Join(chunks[..k - 1])|;
    assert last == line[start..start + |last|];
    PieceOfLine(kind, text, start, last);
  }

  /** A piece of a line holds the line's end if and only if it is the last piece and has both its bytes. */
  lemma PieceOfLine(kind: byte, text: seq<byte>, start: nat, piece: seq<byte>)
    requires IsInline(kind) && CR !in text && LF !in text && piece != []
    requires start + |piece| <= |Line(kind, text)| && piece == Line(kind, text)[start..start + |piece|]
    ensures Occurs(CRLF, piece) <==> start + |piece| == |Line(kind, text)| && |piece| >= 2
  {
    var line, n := Line(kind, text), |piece|;
    assert line[|line| - 2] == CR && line[|line| - 1] == LF;
    if start + n < |line| {
      assert forall i | 0 <= i < |line| - 1 :: line[i] != LF;
      NoLineEnd(piece, LF);
    } else if n == 1 {
      assert piece[0] == line[start] == LF;
      NoLineEnd(piece, CR);
    } else {
      assert piece[n - 2] == line[start + n - 2] && piece[n - 1] == line[start + n - 1];
      assert piece[n - 2..n] == [piece[n - 2], piece[n - 1]];
      assert OccursAt(CRLF, piece, n - 2);
    }
  }

  /** A one-line reply cut in any way is read exactly if and only if all chunks but the last fit the
      cap and no cut separates the carriage return from the line feed; a cut there does no harm only
      to a reply of one byte above the cap, and on a connection that the peer then closes. An error
      line that is read exactly is refused. */
  lemma InlineReadExactlyIff(kind: byte, text: seq<byte>, chunks: seq<seq<byte>>)
    requires kind as char in "+-:" && CR !in text && LF !in text
    requires Splits(chunks, Line(kind, text))
    ensures chunks != []
    ensures Finish(Line(kind, text)) == if kind as char == '-' then Err(NotReady) else Ok(Line(kind, text))
    ensures ReadsExactly(chunks)
       <==> |Join(chunks[..|chunks| - 1])| <= 65536 && (EndUncut(chunks) || |Line(kind, text)| == 65537)
    ensures EndsAfter(chunks, |chunks|) && Outcome(chunks, |chunks|, Closed) == Finish(Line(kind, text))
       <==> |Join(chunks[..|chunks| - 1])| <= 65536
  {
    var n := |chunks|;
    assert chunks[..n] == chunks;
    CheckInlineChunks(kind, text, chunks, n);
    forall j: nat | j < n ensures GoesOn(chunks, j) <==> |Join(chunks[..j])| <= CAP {
      if j > 0 {
        CheckInlineChunks(kind, text, chunks, j);
      }
    }
    forall j: nat | j < n ensures |Join(chunks[..j])| <= |Join(chunks[..n - 1])| {
      JoinPrefix(chunks, j, n - 1);
    }
    JoinSnoc(chunks, n);
    if EndsAfter(chunks, n) {
      assert GoesOn(chunks, n - 1);
    }
  }

  /** A complete `+PONG` line, cut before its line feed, is not recognised. */
  lemma CutPongIsMissed()
    ensures var chunks: seq<seq<byte>> := [[43, 80, 79, 78, 71, 13], [10]];
            && Splits(chunks, Ascii("+PONG\r\n")) && !ReadsExactly(chunks)
            && Outcome(chunks, |chunks|, Silent) == Err(TimedOut)
  {
    AsWritten();
    var text: seq<byte> := [80, 79, 78, 71];
    var chunks: seq<seq<byte>> := [[43, 80, 79, 78, 71, 13], [10]];
    assert chunks[..2] == chunks && chunks[..1][..0] == [] && chunks[..1] == [chunks[0]];
    JoinSnoc(chunks, 2);
    JoinSnoc(chunks, 1);
    assert PONG == Line(43, text) == Join(chunks);
    InlineReadExactlyIff(43, text, chunks);
    CheckInlineChunks(43, text, chunks, 2);
  }

  // --- The null bulk reply ----------------------------------------------------------------------------

  // "$-1" and the end of its line
  const NULL_BULK: seq<byte> := [36, 45, 49, 13, 10]

  lemma NullPrefixGoesOn(raw: seq<byte>)
    requires raw != [] && raw <= NULL_BULK
    ensures (if Occurs(CRLF, raw[1..]) then CheckBulk(raw) else More) == More
  {
    if |raw| < 5 {
      NoLineEnd(raw[1..], LF);
    } else {
      var header: seq<byte> := [36, 45, 49];
      assert raw == header + CRLF + [];
      PartitionAtFirst(header, []);
      assert header[1..] == [45, 49];
      assert Chars(header[1..]) == "-1" && "-1"[1..] == "1" && "1"[..0] == "";
      assert Decimal.ToNat("1") == 1;
      assert TakeNumber(DOLLAR, raw) == Some((-1, []));
    }
  }

  /** However it is cut, the reader never recognises the null bulk reply as complete: it waits for more, and
      returns the reply only when the peer closes the connection. */
  lemma NullBulkIsMissed(chunks: seq<seq<byte>>)
    requires Splits(chunks, Ascii("$-1\r\n"))
    ensures EndsAfter(chunks, |chunks|) && !ReadsExactly(chunks)
    ensures Outcome(chunks, |chunks|, Silent) == Err(TimedOut)
    ensures Outcome(chunks, |chunks|, Closed) == Ok(Ascii("$-1\r\n"))
  {
    assert NULL_BULK == Ascii("$-1\r\n");
    var n := |chunks|;
    assert chunks[..n] == chunks;
    forall j: nat | j <= n ensures GoesOn(chunks, j) {
      JoinPrefix(chunks, j, n);
      if j > 0 {
        assert chunks[..j][0] == chunks[0] && chunks[0][0] == DOLLAR;
        NullPrefixGoesOn(Join(chunks[..j]));
      }
    }
  }

  // --- The probe ------------------------------------------------------------------------------------

  datatype Connection = Connection(chunks: seq<seq<byte>>, ending: Ending)

  datatype ProbeError = Unread(error: ReadError) | PingFailed | Clustered

  const PONG: seq<byte> := [43, 80, 79, 78, 71, 13, 10]
  // "cluster_enabled:0"
  const STANDALONE: seq<byte> := [99, 108, 117, 115, 116, 101, 114, 95, 101, 110, 97, 98, 108, 101, 100, 58, 48]

  lemma AsWritten()
    ensures PONG == Ascii("+PONG\r\n") && STANDALONE == Ascii("cluster_enabled:0")
  {
  }

  /** `PING` must be answered by exactly one simple string, and `INFO cluster` must say that the
      server is no cluster member. */
  method RedisReady(ping: Connection, info: Connection) returns (failure: Option<ProbeError>)
    requires Received(ping.chunks) && Received(info.chunks)
    ensures forall k, l: nat | EndsAfter(ping.chunks, k) && EndsAfter(info.chunks, l) ::
              failure == Readiness(Outcome(ping.chunks, k, ping.ending), Outcome(info.chunks, l, info.ending))
  {
    AsWritten();
    var pong, k := ReadReply(ping.chunks, ping.ending);
    forall k' | EndsAfter(ping.chunks, k') ensures k' == k {
      EndIsUnique(ping.chunks, k, k');
    }
    if pong.Err? {
      return Some(Unread(pong.error));
    }
    if pong.value != PONG {
      return Some(PingFailed);
    }
    var report, l := ReadReply(info.chunks, info.ending);
    forall l' | EndsAfter(info.chunks, l') ensures l' == l {
      EndIsUnique(info.chunks, l, l');
    }
    if report.Err? {
      return Some(Unread(report.error));
    }
    if !Occurs(STANDALONE, report.value) {
      return Some(Clustered);
    }
    failure := None;
  }

  function Readiness(pong: Result<seq<byte>, ReadError>, report: Result<seq<byte>, ReadError>): Option<ProbeError>
  {
    if pong.Err? then Some(Unread(pong.error))
    else if pong.value != Ascii("+PONG\r\n") then Some(PingFailed)
    else if report.Err? then Some(Unread(report.error))
    else if Occurs(Ascii("cluster_enabled:0"), report.value) then None
    else Some(Clustered)
  }

  /** A text above the digits is in a bulk reply if and only if it is in the payload. */
  lemma OccursInBulk(needle: seq<byte>, payload: seq<byte>)
    requires |needle| >= 2 && needle[0] > 57
    requires CR !in needle && LF !in needle
    ensures Occurs(needle, Bulk(payload)) <==> Occurs(needle, payload)
  {
    var header := [DOLLAR] + Digits(|payload|);
    assert Bulk(payload) == header + [CR] + ([LF] + payload + CRLF);
    OccursAroundStop(needle, header, CR, [LF] + payload + CRLF);
    assert [LF] + payload + CRLF == [] + [LF] + (payload + CRLF);
    OccursAroundStop(needle, [], LF, payload + CRLF);
    assert payload + CRLF == payload + [CR] + [LF];
    OccursAroundStop(needle, payload, CR, [LF]);
  }

  /** The answer to `PING` is read exactly if and only if its line end comes in one piece. */
  lemma PongReadExactly(ping: seq<seq<byte>>)
    requires Splits(ping, PONG)
    ensures EndsAfter(ping, |ping|)
    ensures Outcome(ping, |ping|, Silent) == if EndUncut(ping) then Ok(PONG) else Err(TimedOut)
  {
    var text: seq<byte> := [80, 79, 78, 71];
    assert PONG == Line(43, text);
    InlineReadExactlyIff(43, text, ping);
    CheckInlineChunks(43, text, ping, |ping|);
    assert ping[..|ping|] == ping;
    JoinPrefix(ping, |ping| - 1, |ping|);
  }

  /** Where reading a bulk reply ends, however it is cut and however long it is: with the whole of it, or with
      the first chunks that pass the cap, and what has been read until then is the answer. */
  lemma BulkReadUpToCap(payload: seq<byte>, chunks: seq<seq<byte>>, k: nat)
    requires Splits(chunks, Bulk(payload)) && EndsAfter(chunks, k)
    ensures Outcome(chunks, k, Silent) == Ok(Join(chunks[..k])) && Join(chunks[..k]) <= Bulk(payload)
    ensures Join(chunks[..k]) == Bulk(payload) || |Join(chunks[..k])| > CAP
    ensures forall j | 0 <= j < k :: |Join(chunks[..j])| <= CAP
  {
    var n := |chunks|;
    assert chunks[..n] == chunks;
    JoinPrefix(chunks, k, n);
    forall j: nat | j < k ensures |Join(chunks[..j])| <= CAP {
      assert GoesOn(chunks, j);
    }
    BulkReadExactlyIff(payload, chunks);
    if k > 0 {
      CheckBulkChunks(payload, chunks, k);
      assert Join(chunks[..k])[0] == DOLLAR;
    }
  }

  lemma SmallReportIsRead(info: seq<seq<byte>>, payload: seq<byte>, k: nat)
    requires |Bulk(payload)| <= CAP + 1 && Splits(info, Bulk(payload)) && EndsAfter(info, k)
    ensures Occurs(STANDALONE, Join(info[..k])) == Occurs(STANDALONE, payload)
  {
    SmallBulkReadExactly(payload, info);
    EndIsUnique(info, k, |info|);
    assert info[..|info|] == info;
    OccursInBulk(STANDALONE, payload);
  }

  /** However the two replies are cut and however long the report is: the probe accepts a server if and only if
      the first reply's line end comes in one piece and the part of the second that is read, which is all of it
      up to one byte above the cap, holds the standalone line. */
  lemma ProbeAcceptsIff(ping: seq<seq<byte>>, info: seq<seq<byte>>, payload: seq<byte>, k: nat)
    requires Splits(ping, Ascii("+PONG\r\n"))
    requires Splits(info, Bulk(payload)) && EndsAfter(info, k)
    ensures EndsAfter(ping, |ping|)
    ensures var standalone := Ascii("cluster_enabled:0");
            && (Readiness(Outcome(ping, |ping|, Silent), Outcome(info, k, Silent)) == None
                <==> EndUncut(ping) && Occurs(standalone, Join(info[..k])))
            && (|Bulk(payload)| <= 65537 ==> Occurs(standalone, Join(info[..k])) == Occurs(standalone, payload))
  {
    AsWritten();
    PongReadExactly(ping);
    BulkReadUpToCap(payload, info, k);
    if |Bulk(payload)| <= CAP + 1 {
      SmallReportIsRead(info, payload, k);
    }
  }

  /** The verdict on a server's own report, however it is cut: standalone with `0`, refused as a cluster member
      with `1`. */
  lemma ReportVerdicts(flag: char, info: seq<seq<byte>>, k: nat)
    requires flag == '0' || flag == '1'
    requires Splits(info, Bulk(Ascii("# Cluster" + "\r\n" + ("cluster_enabled:" + [flag]) + "\r\n")))
    requires EndsAfter(info, k)
    ensures Readiness(Ok(Ascii("+PONG\r\n")), Outcome(info, k, Silent)) == if flag == '0' then None else Some(Clustered)
  {
    var payload := Ascii("# Cluster" + "\r\n" + ("cluster_enabled:" + [flag]) + "\r\n");
    AsWritten();
    FlagDecides(flag);
    BulkReadUpToCap(payload, info, k);
    SmallBulk(payload);
    SmallReportIsRead(info, payload, k);
  }

  lemma SmallBulk(payload: seq<byte>)
    requires |payload| < 100
    ensures |Bulk(payload)| <= CAP + 1
  {
    assert |Decimal.OfNat(|payload|)| <= 2;
  }

  /** A text without line ends occurs in two lines if and only if it occurs in one of them. */
  lemma OccursInLines(needle: seq<byte>, first: seq<byte>, second: seq<byte>)
    requires needle != [] && CR !in needle && LF !in needle
    ensures Occurs(needle, first + CRLF + second + CRLF) <==> Occurs(needle, first) || Occurs(needle, second)
  {
    assert first + CRLF + second + CRLF == first + [CR] + ([LF] + second + CRLF);
    OccursAroundStop(needle, first, CR, [LF] + second + CRLF);
    assert [LF] + second + CRLF == [] + [LF] + (second + CRLF);
    OccursAroundStop(needle, [], LF, second + CRLF);
    assert second + CRLF == second + [CR] + ([] + [LF] + []);
    OccursAroundStop(needle, second, CR, [] + [LF] + []);
    OccursAroundStop(needle, [], LF, []);
  }

  lemma AsciiConcat(a: string, b: string)
    requires IsAscii(a) && IsAscii(b)
    ensures IsAscii(a + b) && Ascii(a + b) == Ascii(a) + Ascii(b)
  {
  }

  lemma ReportLines(title: string, line: string)
    requires IsAscii(title) && IsAscii(line)
    ensures IsAscii(title + "\r\n" + line + "\r\n")
    ensures Ascii(title + "\r\n" + line + "\r\n") == Ascii(title) + CRLF + Ascii(line) + CRLF
  {
    assert Ascii("\r\n") == CRLF;
    AsciiConcat(title, "\r\n");
    AsciiConcat(title + "\r\n", line);
    AsciiConcat(title + "\r\n" + line, "\r\n");
  }

  lemma FlagLine(flag: char)
    requires flag == '0' || flag == '1'
    ensures |Ascii("cluster_enabled:" + [flag])| == |STANDALONE|
    ensures Ascii("cluster_enabled:" + [flag]) == STANDALONE <==> flag == '0'
  {
    var line := Ascii("cluster_enabled:" + [flag]);
    assert line[16] == flag as int && STANDALONE[16] == '0' as int;
    if flag == '0' {
      assert "cluster_enabled:" + [flag] == "cluster_enabled:0";
      AsWritten();
    }
  }

  lemma FlagDecides(flag: char)
    requires flag == '0' || flag == '1'
    ensures Occurs(STANDALONE, Ascii("# Cluster" + "\r\n" + ("cluster_enabled:" + [flag]) + "\r\n")) <==> flag == '0'
  {
    var title, line := "# Cluster", "cluster_enabled:" + [flag];
    ReportLines(title, line);
    OccursInLines(STANDALONE, Ascii(title), Ascii(line));
    FlagLine(flag);
    OccursInEqualLength(STANDALONE, Ascii(line));
  }

  lemma OccursInEqualLength(needle: seq<byte>, hay: seq<byte>)
    requires |needle| == |hay|
    ensures Occurs(needle, hay) <==> needle == hay
  {
    assert hay[0..|hay|] == hay;
    assert OccursAt(needle, hay, 0) <==> needle == hay;
  }
}
