/** The streaming base64 upload, as in components/smart_todo/smart_todo_llm.c. */
module Base64Stream {
  import opened Bytes

  const ALPHABET := "ABCDEFGHIJKLMNOPQRSTUVWXYZabcdefghijklmnopqrstuvwxyz0123456789+/"
  const OUTPUT_BYTES := 512

  // ---------------------------------------------------------------- RFC 4648, section 4

  function Symbol(six: int): char
    requires 0 <= six < 64
  {
    ALPHABET[six]
  }

  /** Three bytes as one 24-bit group, cut into four 6-bit symbols. */
  function Quantum(a: byte, b: byte, c: byte): (s: string)
    ensures |s| == 4
  {
    var n := a as int * 65536 + b as int * 256 + c;
    [Symbol(n / 262144), Symbol(n / 4096 % 64), Symbol(n / 64 % 64), Symbol(n % 64)]
  }

  /** A final group of one or two bytes, filled with zero bits and padded. */
  function LastQuantum(rest: seq<byte>): (s: string)
    requires 1 <= |rest| <= 2
    ensures |s| == 4
  {
    if |rest| == 1 then
      var n := rest[0] as int * 16;
      [Symbol(n / 64), Symbol(n % 64), '=', '=']
    else
      var n := (rest[0] as int * 256 + rest[1]) * 4;
      [Symbol(n / 4096), Symbol(n / 64 % 64), Symbol(n % 64), '=']
  }

  function Encode(data: seq<byte>): string
  {
    if data == [] then ""
    else if |data| < 3 then LastQuantum(data)
    else Quantum(data[0], data[1], data[2]) + Encode(data[3..])
  }

  // ---------------------------------------------------------------- lengths and prefixes

  /** The content length declared before sending is the length sent. */
  lemma {:induction false} EncodedLength(data: seq<byte>)
    ensures |Encode(data)| == (|data| + 2) / 3 * 4
    decreases |data|
  {
    hide Quantum, LastQuantum;
    if |data| >= 3 {
      EncodedLength(data[3..]);
    }
  }

  /** Whole groups encode independently of what follows them. */
  lemma {:induction false} EncodeOfConcat(front: seq<byte>, back: seq<byte>)
    requires |front| % 3 == 0
    ensures Encode(front + back) == Encode(front) + Encode(back)
    decreases |front|
  {
    hide Quantum, LastQuantum;
    if front == [] {
      assert front + back == back;
    } else {
      assert (front + back)[3..] == front[3..] + back;
      EncodeOfConcat(front[3..], back);
    }
  }

  lemma EncodeOne(a: byte, b: byte, c: byte)
    ensures Encode([a, b, c]) == Quantum(a, b, c)
  {
    hide Quantum;
    var data := [a, b, c];
    assert data[3..] == [];
    assert Encode(data) == Quantum(a, b, c) + Encode(data[3..]);
  }

  lemma EncodeAppendsQuantum(data: seq<byte>, a: byte, b: byte, c: byte)
    requires |data| % 3 == 0
    ensures Encode(data + [a, b, c]) == Encode(data) + Quantum(a, b, c)
  {
    hide Quantum, Encode;
    EncodeOfConcat(data, [a, b, c]);
    EncodeOne(a, b, c);
  }

  lemma SixBitsCut(p: int, q: int)
    requires 0 <= q < 64
    ensures (p * 64 + q) / 64 == p && (p * 64 + q) % 64 == q
  {
    DivUnique(p * 64 + q, 64, p, q);
  }

  /** Four six-bit digits are recovered from the number they make. */
  lemma FourDigitsCut(w: int, x: int, y: int, z: int)
    requires 0 <= w < 64 && 0 <= x < 64 && 0 <= y < 64 && 0 <= z < 64
    ensures
      var n := ((w * 64 + x) * 64 + y) * 64 + z;
      n / 262144 == w && n / 4096 % 64 == x && n / 64 % 64 == y && n % 64 == z
  {
    var n := ((w * 64 + x) * 64 + y) * 64 + z;
    SixBitsCut((w * 64 + x) * 64 + y, z);
    SixBitsCut(w * 64 + x, y);
    DivUnique(n, 4096, w * 64 + x, y * 64 + z);
    SixBitsCut(w, x);
    DivUnique(n, 262144, w, x * 4096 + y * 64 + z);
  }

  /** The shifts and masks of the source cut the same symbols. */
  lemma QuantumByShifts(a: byte, b: byte, c: byte)
    ensures Quantum(a, b, c)
         == [Symbol(a / 4), Symbol(a % 4 * 16 + b / 16), Symbol(b % 16 * 4 + c / 64), Symbol(c % 64)]
  {
    hide Symbol;
    FourDigitsCut(a / 4, a % 4 * 16 + b / 16, b % 16 * 4 + c / 64, c % 64);
  }

  lemma LastQuantumByShifts(rest: seq<byte>)
    requires 1 <= |rest| <= 2
    ensures LastQuantum(rest) ==
      [Symbol(rest[0] / 4), Symbol(rest[0] % 4 * 16 + (if |rest| == 2 then rest[1] / 16 else 0)),
       if |rest| == 2 then Symbol(rest[1] % 16 * 4) else '=', '=']
  {
    hide Symbol;
    var a: int := rest[0];
    if |rest| == 1 {
      SixBitsCut(a / 4, a % 4 * 16);
    } else {
      var b: int := rest[1];
      FourDigitsCut(0, a / 4, a % 4 * 16 + b / 16, b % 16 * 4);
      DivUnique((a * 256 + b) * 4, 4096, a / 4, (a % 4 * 16 + b / 16) * 64 + b % 16 * 4);
    }
  }

  // ---------------------------------------------------------------- the connection

  /** `Overrun` stands for a group put past the end of the output buffer. */
  datatype Status = Sent | TimedOut | WriteFailed | ReadFailed | Overrun

  /** What one turn of the sending loop observes: a cancellation, or how much the driver took. */
  datatype Reply = Reply(cancelled: bool, written: int)

  class HttpClient {
    var replies: seq<Reply>
    ghost var sent: string
    ghost var refused: bool

    constructor (replies: seq<Reply>)
      ensures this.replies == replies && sent == "" && !refused
    {
      this.replies := replies;
      sent, refused := "", false;
    }

    /** Poll for cancellation; an exhausted script is a connection that has gone away. */
    method Cancelled() returns (c: bool)
      modifies this`refused
      ensures c == (replies != [] && replies[0].cancelled)
      ensures refused == (old(refused) || c)
    {
      c := replies != [] && replies[0].cancelled;
      refused := refused || c;
    }

    /** `esp_http_client_write`: takes a non-empty part of the bytes, or fails. */
    method Write(bytes: string) returns (n: int)
      modifies this
      ensures n == if old(replies) == [] then -1 else old(replies)[0].written
      ensures sent == if 0 < n <= |bytes| then old(sent) + bytes[..n] else old(sent)
      ensures refused == (old(refused) || !(0 < n <= |bytes|))
    {
      n := -1;
      if replies != [] {
        n := replies[0].written;
        replies := replies[1..];
      }
      if 0 < n <= |bytes| {
        sent := sent + bytes[..n];
      } else {
        refused := true;
      }
    }
  }

  /** `write_all`: all of the bytes in order, or a failure after some of them, which the connection caused. */
  method WriteAll(client: HttpClient, bytes: string) returns (status: Status)
    modifies client
    ensures status == Sent ==> client.sent == old(client.sent) + bytes
    ensures status != ReadFailed && status != Overrun
    ensures status == TimedOut || status == WriteFailed ==> client.refused
    ensures status != Sent ==> exists k :: 0 <= k < |bytes| && client.sent == old(client.sent) + bytes[..k]
  {
    var p := 0;
    while p < |bytes|
      invariant p <= |bytes| && client.sent == old(client.sent) + bytes[..p]
      decreases |bytes| - p
    {
      var cancelled := client.Cancelled();
      if cancelled {
        return TimedOut;
      }
      var n := client.Write(bytes[p..]);
      if n <= 0 || n > |bytes| - p {
        return WriteFailed;
      }
      assert bytes[..p + n] == bytes[..p] + bytes[p..][..n];
      p := p + n;
    }
    assert bytes[..p] == bytes;
    return Sent;
  }

  // ---------------------------------------------------------------- the stream

  /** Characters waiting in the output buffer once `quanta` groups have been put into it. */
  function Buffered(quanta: nat): nat
  {
    if quanta == 0 then 0 else if Buffered(quanta - 1) + 4 > OUTPUT_BYTES then 4 else Buffered(quanta - 1) + 4
  }

  lemma {:induction false} BufferedWraps(quanta: nat)
    ensures Buffered(quanta) == if quanta == 0 then 0 else 4 * ((quanta - 1) % 128 + 1)
    decreases quanta
  {
    if quanta >= 2 {
      BufferedWraps(quanta - 1);
      var m := (quanta - 2) / 128;
      if (quanta - 2) % 128 == 127 {
        DivUnique(quanta - 1, 128, m + 1, 0);
      } else {
        DivUnique(quanta - 1, 128, m, (quanta - 2) % 128 + 1);
      }
    }
  }

  /** The buffer is full after every 128th group, and not before the first of these. */
  lemma FullAfter(quanta: nat)
    ensures Buffered(quanta) + 4 > OUTPUT_BYTES ==> quanta >= OUTPUT_BYTES / 4
  {
    BufferedWraps(quanta);
  }

  /**
   * The finishing group is put into the buffer without asking for room. It fits exactly when the
   * call's whole groups do not end on a full buffer; a finishing call without input always fits.
   */
  predicate FinishFits(carried: nat, length: nat)
  {
    var total := carried + length;
    total % 3 != 0 ==> Buffered(total / 3) + 4 <= OUTPUT_BYTES
  }

  lemma FinishFitsIff(carried: nat, length: nat)
    ensures FinishFits(carried, length) <==>
      var total := carried + length;
      total % 3 == 0 || total < 3 || total / 3 % 128 != 0
    ensures carried < 3 && length == 0 ==> FinishFits(carried, length)
  {
    var quanta := (carried + length) / 3;
    BufferedWraps(quanta);
    if quanta > 0 {
      var m, r := quanta / 128, quanta % 128;
      if r == 0 {
        DivUnique(quanta - 1, 128, m - 1, 127);
      } else {
        DivUnique(quanta - 1, 128, m, r - 1);
      }
    }
  }

  /** The longest prefix of whole groups. */
  function Whole(data: seq<byte>): (s: seq<byte>)
    ensures |s| % 3 == 0 && |data| - 3 < |s| <= |data|
  {
    data[..|data| / 3 * 3]
  }

  /** A prefix of whole groups that leaves less than one group is the longest one. */
  lemma WholeGroupsFirst(total: seq<byte>, done: seq<byte>, rest: seq<byte>)
    requires done + rest == total && |done| % 3 == 0 && |rest| < 3
    ensures done == Whole(total) && |total| / 3 == |done| / 3 && |total| % 3 == |rest|
  {
    DivUnique(|total|, 3, |done| / 3, |rest|);
    assert (done + rest)[..|done|] == done;
  }

  lemma EncodeEnds(done: seq<byte>, rest: seq<byte>)
    requires |done| % 3 == 0 && 1 <= |rest| < 3
    ensures Encode(done + rest) == Encode(done) + LastQuantum(rest)
  {
    hide LastQuantum;
    EncodeOfConcat(done, rest);
  }

  method PutQuantum(output: array<char>, used: nat, a: byte, b: byte, c: byte)
    requires used + 4 <= output.Length
    modifies output
    ensures output[..used + 4] == old(output[..used]) + Quantum(a, b, c)
  {
    hide Symbol;
    QuantumByShifts(a, b, c);
    output[used] := Symbol(a / 4);
    output[used + 1] := Symbol(a % 4 * 16 + b / 16);
    output[used + 2] := Symbol(b % 16 * 4 + c / 64);
    output[used + 3] := Symbol(c % 64);
  }

  /** Three bytes into four characters, after making room for them. */
  method PutGroup(client: HttpClient, output: array<char>, used: nat, a: byte, b: byte, c: byte)
    returns (status: Status, used': nat)
    requires output.Length == OUTPUT_BYTES && used <= OUTPUT_BYTES
    modifies output, client
    ensures status == Sent ==> used' == (if used + 4 > OUTPUT_BYTES then 4 else used + 4)
    ensures status != ReadFailed && status != Overrun && (used + 4 <= OUTPUT_BYTES ==> status == Sent)
    ensures status == TimedOut || status == WriteFailed ==> client.refused
    ensures status == Sent ==>
      client.sent + output[..used'] == old(client.sent + output[..used]) + Quantum(a, b, c)
  {
    hide Quantum;
    status, used' := Sent, used;
    if used + 4 > OUTPUT_BYTES {
      status := WriteAll(client, output[..used]);
      if status != Sent {
        return;
      }
      used' := 0;
    }
    PutQuantum(output, used', a, b, c);
    used' := used' + 4;
  }

  /** The padded final group. */
  method PutLastQuantum(output: array<char>, used: nat, carry: array<byte>, carryLength: nat)
    requires used + 4 <= output.Length && 1 <= carryLength <= 2 && carry.Length == 3
    modifies output
    ensures output[..used + 4] == old(output[..used]) + LastQuantum(carry[..carryLength])
  {
    hide Symbol, LastQuantum;
    LastQuantumByShifts(carry[..carryLength]);
    output[used] := Symbol(carry[0] / 4);
    output[used + 1] := Symbol(carry[0] % 4 * 16 + (if carryLength == 2 then carry[1] / 16 else 0));
    output[used + 2] := if carryLength == 2 then Symbol(carry[1] % 16 * 4) else '=';
    output[used + 3] := '=';
  }

  class Stream {
    const carry: array<byte>
    var carryLength: nat

    ghost predicate Valid()
      reads this
    {
      carry.Length == 3 && carryLength < 3
    }

    /** Bytes taken in but not yet encoded. */
    ghost function Carried(): (s: seq<byte>)
      requires Valid()
      reads this, carry
      ensures |s| == carryLength
    {
      carry[..carryLength]
    }

    constructor ()
      ensures Valid() && Carried() == [] && fresh(carry)
    {
      carry := new byte[3](_ => 0);
      carryLength := 0;
    }

    /** One turn of the loop over the input: a third byte completes a group, which is put into the buffer. */
    method TakeByte(client: HttpClient, output: array<char>, used: nat, b: byte,
                    ghost before: string, ghost done: seq<byte>)
      returns (status: Status, used': nat, ghost done': seq<byte>)
      requires Valid() && output.Length == OUTPUT_BYTES
      requires |done| % 3 == 0 && used == Buffered(|done| / 3) <= OUTPUT_BYTES
      requires client.sent + output[..used] == before + Encode(done)
      modifies this`carryLength, carry, output, client
      ensures status == Sent ==> Valid() && done' + Carried() == done + old(Carried()) + [b]
      ensures status == Sent ==> |done'| % 3 == 0 && used' == Buffered(|done'| / 3) <= OUTPUT_BYTES
      ensures status == Sent ==> client.sent + output[..used'] == before + Encode(done')
      ensures status != ReadFailed && status != Overrun
      ensures used + 4 <= OUTPUT_BYTES || old(carryLength) < 2 ==> status == Sent
      ensures status == TimedOut || status == WriteFailed ==> client.refused
    {
      hide Symbol, Encode, Quantum;
      status, used', done' := Sent, used, done;
      carry[carryLength] := b;
      carryLength := carryLength + 1;
      assert carry[..carryLength] == old(Carried()) + [b];
      if carryLength == 3 {
        var group := [carry[0], carry[1], carry[2]];
        assert carry[..carryLength] == group;
        status, used' := PutGroup(client, output, used, group[0], group[1], group[2]);
        EncodeAppendsQuantum(done, group[0], group[1], group[2]);
        done' := done + group;
        assert |done'| / 3 == |done| / 3 + 1;
        carryLength := 0;
      }
    }

    /** The loop over the input. Sending can only fail once a full buffer has to make room. */
    method TakeAll(client: HttpClient, output: array<char>, input: seq<byte>)
      returns (status: Status, used: nat, ghost done: seq<byte>)
      requires Valid() && output.Length == OUTPUT_BYTES
      modifies this`carryLength, carry, output, client
      ensures status == Sent ==> Valid() && |done| % 3 == 0 && done + Carried() == old(Carried()) + input
      ensures status == Sent ==>
        used == Buffered(|done| / 3) <= OUTPUT_BYTES && client.sent + output[..used] == old(client.sent) + Encode(done)
      ensures status != ReadFailed && status != Overrun
      ensures (old(carryLength) + |input|) / 3 <= OUTPUT_BYTES / 4 ==> status == Sent
      ensures status == TimedOut || status == WriteFailed ==> client.refused
    {
      hide Symbol, Encode, Quantum, Buffered;
      status, used, done := Sent, 0, [];
      ghost var start, before := Carried(), client.sent;
      EncodedLength([]);
      BufferedWraps(0);
      for i := 0 to |input|
        invariant status == Sent && Valid() && |done| % 3 == 0 && done + Carried() == start + input[..i]
        invariant used == Buffered(|done| / 3) <= OUTPUT_BYTES
        invariant client.sent + output[..used] == before + Encode(done)
      {
        assert |done| + carryLength == |start| + i;
        FullAfter(|done| / 3);
        status, used, done := TakeByte(client, output, used, input[i], before, done);
        if status != Sent {
          return;
        }
      }
      assert input[..|input|] == input;
    }

    /**
     * `write_base64`. The source does not ask for room for a finishing group: without it the group
     * runs over the end of the buffer, if sending has not failed before.
     */
    method WriteBase64(client: HttpClient, input: seq<byte>, finish: bool) returns (status: Status)
      requires Valid()
      modifies this`carryLength, carry, client
      ensures status == Sent ==> Valid()
      ensures status == Sent ==>
        var total := old(Carried()) + input;
        if finish then Carried() == [] && client.sent == old(client.sent) + Encode(total)
        else Whole(total) + Carried() == total && client.sent == old(client.sent) + Encode(Whole(total))
      ensures status == TimedOut || status == WriteFailed ==> client.refused
      ensures status != ReadFailed && (status == Overrun ==> finish && !FinishFits(old(carryLength), |input|))
      ensures finish && !FinishFits(old(carryLength), |input|) ==>
        status != Sent && ((old(carryLength) + |input|) / 3 <= OUTPUT_BYTES / 4 ==> status == Overrun)
    {
      hide Symbol, Encode, Quantum, LastQuantum, Buffered;
      var output := new char[OUTPUT_BYTES](_ => ' ');
      ghost var start, before := Carried(), client.sent;
      var used;
      ghost var done;
      status, used, done := TakeAll(client, output, input);
      if status != Sent {
        return;
      }
      WholeGroupsFirst(start + input, done, Carried());
      if finish && carryLength > 0 {
        if used + 4 > OUTPUT_BYTES {
          return Overrun;
        }
        EncodeEnds(done, Carried());
        ghost var put := output[..used];
        PutLastQuantum(output, used, carry, carryLength);
        assert client.sent + (put + LastQuantum(Carried())) == client.sent + put + LastQuantum(Carried());
        used := used + 4;
        carryLength := 0;
        assert client.sent + output[..used] == before + Encode(start + input);
      } else if finish {
        assert done == start + input;
      }
      assert output[..0] == [];
      if used == 0 {
        return Sent;
      }
      status := WriteAll(client, output[..used]);
    }
  }

  /** 386 bytes in one finishing call overrun the buffer, whatever the connection does. */
  method FinishOverruns(client: HttpClient, input: seq<byte>) returns (status: Status)
    requires |input| == 386
    modifies client
    ensures status == Overrun
  {
    var stream := new Stream();
    FinishFitsIff(0, 386);
    status := stream.WriteBase64(client, input, true);
  }

  // ---------------------------------------------------------------- any split of the input

  /** The stream has taken `fed` since the connection held `before`: its whole groups are sent, the rest carried. */
  ghost predicate Fed(stream: Stream, client: HttpClient, before: string, fed: seq<byte>)
    reads stream, stream.carry, client
  {
    stream.Valid() && Whole(fed) + stream.Carried() == fed && client.sent == before + Encode(Whole(fed))
  }

  /** Whole groups of a continued stream: those already sent, then those of the carried bytes and the new ones. */
  lemma WholeContinues(fed: seq<byte>, carried: seq<byte>, input: seq<byte>, rest: seq<byte>)
    requires Whole(fed) + carried == fed && Whole(carried + input) + rest == carried + input
    ensures Whole(fed + input) == Whole(fed) + Whole(carried + input)
    ensures Whole(fed + input) + rest == fed + input
    ensures Encode(Whole(fed + input)) == Encode(Whole(fed)) + Encode(Whole(carried + input))
  {
    hide Encode, Whole;
    var done := Whole(fed) + Whole(carried + input);
    assert done + rest == fed + input by {
      assert done + rest == Whole(fed) + (Whole(carried + input) + rest);
      assert Whole(fed) + (carried + input) == Whole(fed) + carried + input;
    }
    WholeGroupsFirst(fed + input, done, rest);
    EncodeOfConcat(Whole(fed), Whole(carried + input));
  }

  method Feed(stream: Stream, client: HttpClient, input: seq<byte>, ghost before: string, ghost fed: seq<byte>)
    returns (status: Status)
    requires Fed(stream, client, before, fed)
    modifies stream`carryLength, stream.carry, client
    ensures status == Sent ==> Fed(stream, client, before, fed + input)
    ensures status != ReadFailed && status != Overrun
    ensures status == TimedOut || status == WriteFailed ==> client.refused
  {
    hide Encode, Whole, FinishFits;
    ghost var carried := stream.Carried();
    status := stream.WriteBase64(client, input, false);
    if status == Sent {
      WholeContinues(fed, carried, input, stream.Carried());
    }
  }

  /** The finishing call of the upload has no input, so it always fits. */
  method Finish(stream: Stream, client: HttpClient, ghost before: string, ghost fed: seq<byte>) returns (status: Status)
    requires Fed(stream, client, before, fed)
    modifies stream`carryLength, stream.carry, client
    ensures status == Sent ==> client.sent == before + Encode(fed)
    ensures status != ReadFailed && status != Overrun
    ensures status == TimedOut || status == WriteFailed ==> client.refused
  {
    hide Encode, Whole, FinishFits;
    FinishFitsIff(stream.carryLength, 0);
    ghost var carried := stream.Carried();
    status := stream.WriteBase64(client, [], true);
    assert carried + [] == carried;
    EncodeOfConcat(Whole(fed), carried);
  }

  method Begin(client: HttpClient) returns (stream: Stream)
    ensures fresh(stream) && fresh(stream.carry) && Fed(stream, client, client.sent, [])
  {
    EncodedLength([]);
    stream := new Stream();
  }

  function Concat(parts: seq<seq<byte>>): seq<byte>
  {
    if parts == [] then [] else Concat(parts[..|parts| - 1]) + parts[|parts| - 1]
  }

  /**
   * Any split of the input into calls, then one finishing call without input: the connection
   * receives the encoding of the whole, as many characters as were declared for it.
   */
  method SendParts(client: HttpClient, parts: seq<seq<byte>>) returns (status: Status)
    modifies client
    ensures status == Sent ==> client.sent == old(client.sent) + Encode(Concat(parts))
    ensures status == Sent ==> |client.sent| == |old(client.sent)| + (|Concat(parts)| + 2) / 3 * 4
    ensures status != ReadFailed && status != Overrun
    ensures status == TimedOut || status == WriteFailed ==> client.refused
  {
    hide Encode, Fed;
    var stream := Begin(client);
    ghost var before := client.sent;
    for i := 0 to |parts|
      invariant fresh(stream) && fresh(stream.carry)
      invariant Fed(stream, client, before, Concat(parts[..i]))
    {
      status := Feed(stream, client, parts[i], before, Concat(parts[..i]));
      if status != Sent {
        return;
      }
      assert parts[..i + 1][..i] == parts[..i];
    }
    assert parts[..|parts|] == parts;
    status := Finish(stream, client, before, Concat(parts));
    EncodedLength(Concat(parts));
  }

  // ---------------------------------------------------------------- the upload of a recording

  const WAV_HEADER := 44
  const CHUNK := 512

  /** The body length declared when the connection is opened. */
  function Declared(prefix: string, pcmBytes: nat, suffix: string): nat
  {
    |prefix| + (WAV_HEADER + pcmBytes + 2) / 3 * 4 + |suffix|
  }

  /**
   * The base64 upload of `smart_todo_transcribe`: prefix, header, the recording read from flash in
   * chunks, the finishing call and the suffix. `readable[k]` says whether the k-th flash read succeeds.
   */
  method Upload(client: HttpClient, prefix: string, wav: seq<byte>, pcm: seq<byte>, suffix: string, readable: seq<bool>)
    returns (status: Status)
    requires |wav| == WAV_HEADER && |readable| >= |pcm|
    modifies client
    ensures status == Sent ==> client.sent == old(client.sent) + prefix + Encode(wav + pcm) + suffix
    ensures status == Sent ==> |client.sent| == |old(client.sent)| + Declared(prefix, |pcm|, suffix)
    ensures status != Overrun && (status == ReadFailed ==> false in readable)
    ensures status == TimedOut || status == WriteFailed ==> client.refused
  {
    hide Encode, Fed;
    status := WriteAll(client, prefix);
    if status != Sent {
      return;
    }
    var stream := Begin(client);
    ghost var before := client.sent;
    status := Feed(stream, client, wav, before, []);
    assert [] + wav == wav + pcm[..0];
    var offset := 0;
    while offset < |pcm| && status == Sent
      invariant fresh(stream) && fresh(stream.carry) && offset <= |pcm|
      invariant status != ReadFailed && status != Overrun && (status != Sent ==> client.refused)
      invariant (status == Sent ==> Fed(stream, client, before, wav + pcm[..offset]))
    {
      var amount := if |pcm| - offset > CHUNK then CHUNK else |pcm| - offset;
      if !readable[offset / CHUNK] {
        return ReadFailed;
      }
      assert wav + pcm[..offset] + pcm[offset..offset + amount] == wav + pcm[..offset + amount];
      status := Feed(stream, client, pcm[offset..offset + amount], before, wav + pcm[..offset]);
      offset := offset + amount;
    }
    if status != Sent {
      return;
    }
    assert pcm[..offset] == pcm;
    status := Finish(stream, client, before, wav + pcm);
    if status != Sent {
      return;
    }
    status := WriteAll(client, suffix);
    EncodedLength(wav + pcm);
  }
}
