/** The single-question DNS query message the packet builder emits: the
    12-byte header of section 4.1.1 of RFC 1035, a QNAME in the label format
    of section 3.1, and QTYPE A / QCLASS IN (section 4.1.2). */
module DnsMessage {
  import opened Bytes

  /** '.' in the hostname's bytes. */
  const Dot: uint8 := 0x2E
  /** Size of the buffer the message is built in. */
  const DnsCapacity := 512
  const DnsHeaderLen := 12
  const MaxLabelLen := 63
  const QTypeA: uint16 := 1
  const QClassIn: uint16 := 1

  /** A query: its record type (carried but never encoded), the hostname's bytes
      and the 16-bit query identifier. */
  datatype DnsQuery = DnsQuery(qtype: string, hostname: seq<uint8>, queryId: uint16)

  // ---- Reference definition of the message ---------------------------------

  /** `std::string::find`: the first position holding b, if any. */
  function Find(s: seq<uint8>, b: uint8): (r: Option<nat>)
    ensures r.Some? ==> r.value < |s|
  {
    if |s| == 0 then None
    else if s[0] == b then Some(0)
    else match Find(s[1..], b)
      case None => None
      case Some(i) => Some(i + 1)
  }

  /** Find reports exactly the first occurrence, and None only when b is absent. */
  lemma {:induction false} FindSpec(s: seq<uint8>, b: uint8)
    ensures Find(s, b).Some? ==> s[Find(s, b).value] == b && b !in s[..Find(s, b).value]
    ensures Find(s, b).None? <==> b !in s
  {
    if |s| > 0 && s[0] != b {
      FindSpec(s[1..], b);
      assert s == [s[0]] + s[1..];
      match Find(s[1..], b)
      case None =>
      case Some(i) =>
        assert s[..i + 1] == [s[0]] + s[1..][..i];
    }
  }

  /** The first occurrence is what Find reports. */
  lemma {:induction false} FindFirst(s: seq<uint8>, b: uint8, i: nat)
    requires i < |s| && s[i] == b && b !in s[..i]
    ensures Find(s, b) == Some(i)
  {
    if i > 0 {
      assert s[0] in s[..i];
      assert s[1..][i - 1] == b;
      assert s[1..][..i - 1] == s[..i][1..];
      FindFirst(s[1..], b, i - 1);
    }
  }

  /** The hostname split at every '.', as the encoding loop consumes it. */
  function Labels(h: seq<uint8>): (ls: seq<seq<uint8>>)
    ensures |ls| >= 1
    decreases |h|
  {
    match Find(h, Dot)
    case None => [h]
    case Some(d) => [h[..d]] + Labels(h[d + 1..])
  }

  /** The labels joined with '.'. */
  function Join(ls: seq<seq<uint8>>): seq<uint8>
    requires |ls| >= 1
  {
    if |ls| == 1 then ls[0] else ls[0] + [Dot] + Join(ls[1..])
  }

  /** Each label as a length byte (its size cast to 8 bits) followed by its bytes. */
  function EncodeLabels(ls: seq<seq<uint8>>): seq<uint8>
  {
    if ls == [] then [] else [|ls[0]| % 0x100] + ls[0] + EncodeLabels(ls[1..])
  }

  /** The QNAME: the encoded labels and the terminating zero byte. */
  function QName(h: seq<uint8>): seq<uint8>
  {
    EncodeLabels(Labels(h)) + [0]
  }

  /** Identifier, flags 0x0100, QDCOUNT 1, ANCOUNT, NSCOUNT and ARCOUNT 0. */
  function HeaderBytes(id: uint16): seq<uint8>
  {
    U16(id) + [0x01, 0x00] + U16(1) + U16(0) + U16(0) + U16(0)
  }

  function QueryMessage(q: DnsQuery): seq<uint8>
  {
    HeaderBytes(q.queryId) + QName(q.hostname) + U16(QTypeA) + U16(QClassIn)
  }

  /** One step of the encoding loop: the label before the first '.' comes first. */
  lemma LabelsStep(h: seq<uint8>)
    ensures match Find(h, Dot)
            case Some(d) => Labels(h) == [h[..d]] + Labels(h[d + 1..])
            case None => Labels(h) == [h]
  {
  }

  lemma {:induction false} EncodeLabelsAppend(a: seq<seq<uint8>>, b: seq<seq<uint8>>)
    ensures EncodeLabels(a + b) == EncodeLabels(a) + EncodeLabels(b)
  {
    if a != [] {
      assert (a + b)[0] == a[0] && (a + b)[1..] == a[1..] + b;
      EncodeLabelsAppend(a[1..], b);
      calc {
        EncodeLabels(a + b);
        [|a[0]| % 0x100] + a[0] + EncodeLabels(a[1..] + b);
        [|a[0]| % 0x100] + a[0] + (EncodeLabels(a[1..]) + EncodeLabels(b));
        ([|a[0]| % 0x100] + a[0] + EncodeLabels(a[1..])) + EncodeLabels(b);
      }
    } else {
      assert a + b == b;
    }
  }

  lemma EncodeOneLabel(l: seq<uint8>)
    ensures EncodeLabels([l]) == [|l| % 0x100] + l
  {
    assert [l][1..] == [];
  }

  // ---- The encoder -----------------------------------------------------------

  /** Writes one label at `pos`: the length byte, then the label's bytes. */
  method EmitLabel(buf: array<uint8>, pos: nat, part: seq<uint8>) returns (next: nat)
    requires pos + 1 + |part| <= buf.Length
    modifies buf
    ensures next == pos + 1 + |part|
    ensures buf[pos] == |part| % 0x100
    ensures forall j :: 0 <= j < |part| ==> buf[pos + 1 + j] == part[j]
    ensures forall j :: 0 <= j < buf.Length && (j < pos || next <= j) ==> buf[j] == old(buf[j])
  {
    buf[pos] := |part| % 0x100;
    next := pos + 1;
    for i := 0 to |part|
      invariant next == pos + 1 + i
      invariant buf[pos] == |part| % 0x100
      invariant forall j :: 0 <= j < i ==> buf[pos + 1 + j] == part[j]
      invariant forall j :: 0 <= j < buf.Length && (j < pos || next <= j) ==> buf[j] == old(buf[j])
    {
      buf[next] := part[i];
      next := next + 1;
    }
  }

  /** Writes the 12 header bytes at the start of `buf`. */
  method EmitHeader(buf: array<uint8>, id: uint16) returns (pos: nat)
    requires DnsHeaderLen <= buf.Length
    modifies buf
    ensures pos == DnsHeaderLen && buf[..pos] == HeaderBytes(id)
    ensures buf[pos..] == old(buf[pos..])
  {
    pos := 0;
    buf[pos] := id / 0x100;  pos := pos + 1;
    buf[pos] := id % 0x100;  pos := pos + 1;
    buf[pos] := 0x01;  pos := pos + 1;  // flags
    buf[pos] := 0x00;  pos := pos + 1;
    buf[pos] := 0x00;  pos := pos + 1;  // QDCOUNT
    buf[pos] := 0x01;  pos := pos + 1;
    buf[pos] := 0x00;  pos := pos + 1;  // ANCOUNT
    buf[pos] := 0x00;  pos := pos + 1;
    buf[pos] := 0x00;  pos := pos + 1;  // NSCOUNT
    buf[pos] := 0x00;  pos := pos + 1;
    buf[pos] := 0x00;  pos := pos + 1;  // ARCOUNT
    buf[pos] := 0x00;  pos := pos + 1;
  }

  /** Writes the QNAME terminator, QTYPE A and QCLASS IN at `pos`. */
  method EmitQuestionEnd(buf: array<uint8>, pos: nat) returns (next: nat)
    requires pos + 5 <= buf.Length
    modifies buf
    ensures next == pos + 5 && buf[pos..next] == [0] + U16(QTypeA) + U16(QClassIn)
    ensures buf[..pos] == old(buf[..pos]) && buf[next..] == old(buf[next..])
  {
    next := pos;
    buf[next] := 0x00;  next := next + 1;  // end of QNAME
    buf[next] := 0x00;  next := next + 1;  // QTYPE A
    buf[next] := 0x01;  next := next + 1;
    buf[next] := 0x00;  next := next + 1;  // QCLASS IN
    buf[next] := 0x01;  next := next + 1;
  }

  /** Lines 92-104 of the source: splits the hostname at each '.', writing every
      label through the cursor, then writes the part after the last '.'. */
  method EmitName(buf: array<uint8>, pos: nat, h: seq<uint8>) returns (next: nat)
    requires pos + |h| + 1 <= buf.Length
    modifies buf
    ensures next == pos + |h| + 1
    ensures buf[pos..next] == EncodeLabels(Labels(h))
    ensures forall j :: 0 <= j < buf.Length && (j < pos || next <= j) ==> buf[j] == old(buf[j])
  {
    ghost var written: seq<uint8> := [];
    next := pos;
    var hostname := h;
    var dot := Find(hostname, Dot);
    while dot.Some?
      invariant dot == Find(hostname, Dot)
      invariant next == pos + |written| && next + |hostname| == pos + |h|
      invariant EncodeLabels(Labels(h)) == written + EncodeLabels(Labels(hostname))
      invariant forall j :: 0 <= j < |written| ==> buf[pos + j] == written[j]
      invariant forall j :: 0 <= j < buf.Length && (j < pos || next <= j) ==> buf[j] == old(buf[j])
      decreases |hostname|
    {
      var dotPos := dot.value;
      NameStep(hostname, dotPos);
      AppendAssoc(written, [dotPos % 0x100] + hostname[..dotPos], EncodeLabels(Labels(hostname[dotPos + 1..])));
      next := EmitStep(buf, pos, next, written, hostname[..dotPos]);
      written := written + ([dotPos % 0x100] + hostname[..dotPos]);
      hostname := hostname[dotPos + 1..];
      dot := Find(hostname, Dot);
    }
    NameLast(hostname);
    next := EmitStep(buf, pos, next, written, hostname);
    written := written + ([|hostname| % 0x100] + hostname);
    assert buf[pos..next] == written;
  }

  /** Writes one more label after the bytes `written` at `pos`. */
  method EmitStep(buf: array<uint8>, pos: nat, at: nat, ghost written: seq<uint8>, part: seq<uint8>) returns (next: nat)
    requires at == pos + |written| && at + 1 + |part| <= buf.Length
    requires forall j :: 0 <= j < |written| ==> buf[pos + j] == written[j]
    modifies buf
    ensures next == pos + |written| + 1 + |part|
    ensures forall j :: 0 <= j < next - pos ==> buf[pos + j] == (written + ([|part| % 0x100] + part))[j]
    ensures forall j :: 0 <= j < buf.Length && (j < pos + |written| || next <= j) ==> buf[j] == old(buf[j])
  {
    next := EmitLabel(buf, at, part);
    forall j | 0 <= j < |written| + 1 + |part|
      ensures buf[pos + j] == (written + ([|part| % 0x100] + part))[j]
    {
      if j > |written| {
        assert buf[pos + |written| + 1 + (j - |written| - 1)] == part[j - |written| - 1];
      }
    }
  }

  lemma AppendAssoc(a: seq<uint8>, b: seq<uint8>, c: seq<uint8>)
    ensures a + (b + c) == (a + b) + c
  {
  }

  /** One turn of the encoding loop: the label before the first '.' comes first. */
  lemma NameStep(rest: seq<uint8>, d: nat)
    requires Find(rest, Dot) == Some(d)
    ensures d < |rest|
    ensures EncodeLabels(Labels(rest)) == ([d % 0x100] + rest[..d]) + EncodeLabels(Labels(rest[d + 1..]))
  {
    LabelsStep(rest);
    EncodeOneLabel(rest[..d]);
    EncodeLabelsAppend([rest[..d]], Labels(rest[d + 1..]));
  }

  /** The part after the last '.' is the last label. */
  lemma NameLast(rest: seq<uint8>)
    requires Find(rest, Dot) == None
    ensures EncodeLabels(Labels(rest)) == [|rest| % 0x100] + rest
  {
    LabelsStep(rest);
    EncodeOneLabel(rest);
  }

  /** The DNS half of `encodeFullPacket`: fills `buf` from offset 0 through the
      `dnsPos` cursor and returns the message length. */
  method EncodeQuery(q: DnsQuery, buf: array<uint8>) returns (dnsLen: nat)
    requires buf.Length == DnsCapacity
    requires |q.hostname| + 18 <= DnsCapacity
    modifies buf
    ensures dnsLen == |q.hostname| + 18
    ensures buf[..dnsLen] == QueryMessage(q)
    ensures buf[dnsLen..] == old(buf[dnsLen..])
  {
    var pos := EmitHeader(buf, q.queryId);
    ghost var header := buf[..pos];
    pos := EmitName(buf, pos, q.hostname);
    assert buf[..DnsHeaderLen] == header;
    var nameEnd := pos;
    ghost var name := buf[DnsHeaderLen..nameEnd];
    pos := EmitQuestionEnd(buf, pos);
    dnsLen := pos;
    assert buf[..DnsHeaderLen] == header && buf[DnsHeaderLen..nameEnd] == name;
    AssembleMessage(buf[..], q, nameEnd);
  }

  /** A buffer holding the header, the encoded labels and the question's end holds
      the query message. */
  lemma AssembleMessage(s: seq<uint8>, q: DnsQuery, a: nat)
    requires DnsHeaderLen <= a && a + 5 <= |s|
    requires s[..DnsHeaderLen] == HeaderBytes(q.queryId)
    requires s[DnsHeaderLen..a] == EncodeLabels(Labels(q.hostname))
    requires s[a..a + 5] == [0] + U16(QTypeA) + U16(QClassIn)
    ensures s[..a + 5] == QueryMessage(q)
  {
    assert s[..a + 5] == s[..DnsHeaderLen] + s[DnsHeaderLen..a] + s[a..a + 5];
  }

  // ---- Reading a message back ------------------------------------------------

  /** Labels a well-formed name is made of: 1 to 63 bytes each, none holding a '.'
      (a '.' inside a label cannot come out of splitting a hostname). */
  predicate ValidLabels(ls: seq<seq<uint8>>)
  {
    forall i :: 0 <= i < |ls| ==> 1 <= |ls[i]| <= MaxLabelLen && Dot !in ls[i]
  }

  /** A hostname every label of which the encoder can represent. */
  predicate ValidHostname(h: seq<uint8>)
  {
    ValidLabels(Labels(h))
  }

  /** Reads a QNAME: length-prefixed labels up to the zero byte; returns the labels
      and the number of bytes read. Compression pointers and over-long labels are
      rejected. */
  function DecodeLabels(b: seq<uint8>): (r: Option<(seq<seq<uint8>>, nat)>)
    ensures r.Some? ==> 1 <= r.value.1 <= |b|
    decreases |b|
  {
    if |b| == 0 then None
    else if b[0] == 0 then Some(([], 1))
    else if b[0] > MaxLabelLen || 1 + b[0] > |b| then None
    else
      var r := DecodeLabels(b[1 + b[0]..]);
      if r.None? then None else Some(([b[1..1 + b[0]]] + r.value.0, 1 + b[0] + r.value.1))
  }

  /** The flag and count fields of a parsed header. */
  datatype DnsHeader = DnsHeader(
    id: uint16, qr: bool, opcode: uint4, aa: bool, tc: bool, rd: bool, ra: bool,
    z: nat, rcode: uint4, qdCount: uint16, anCount: uint16, nsCount: uint16, arCount: uint16)

  /** The header fields of section 4.1.1 of RFC 1035. */
  function ParseHeader(b: seq<uint8>): DnsHeader
    requires DnsHeaderLen <= |b|
  {
    DnsHeader(ReadU16(b, 0), b[2] / 0x80 == 1, b[2] / 0x8 % 0x10, b[2] / 0x4 % 2 == 1,
              b[2] / 0x2 % 2 == 1, b[2] % 2 == 1, b[3] / 0x80 == 1, b[3] / 0x10 % 0x8,
              b[3] % 0x10, ReadU16(b, 4), ReadU16(b, 6), ReadU16(b, 8), ReadU16(b, 10))
  }

  /** A standard query with recursion desired and exactly one question. */
  predicate QueryHeader(hd: DnsHeader)
  {
    !hd.qr && hd.opcode == 0 && !hd.aa && !hd.tc && hd.rd && !hd.ra && hd.z == 0
    && hd.rcode == 0 && hd.qdCount == 1 && hd.anCount == 0 && hd.nsCount == 0 && hd.arCount == 0
  }

  /** Reads a message of the shape the encoder produces: a query header, one
      question of type A and class IN, and nothing after it. */
  function DecodeQuery(m: seq<uint8>): (r: Option<DnsQuery>)
    ensures r.Some? ==> r.value.qtype == "A" && |m| >= DnsHeaderLen && r.value.queryId == ReadU16(m, 0)
  {
    if |m| < DnsHeaderLen || !QueryHeader(ParseHeader(m)) then None
    else match DecodeLabels(m[DnsHeaderLen..])
      case None => None
      case Some((ls, k)) =>
        if |ls| == 0 || !ValidLabels(ls) || |m| != DnsHeaderLen + k + 4
           || ReadU16(m, DnsHeaderLen + k) != QTypeA || ReadU16(m, DnsHeaderLen + k + 2) != QClassIn
        then None
        else Some(DnsQuery("A", Join(ls), ReadU16(m, 0)))
  }

  // ---- Properties --------------------------------------------------------------

  /** Splitting at the dots loses nothing: joining the labels gives back the
      hostname. */
  lemma {:induction false} JoinLabels(h: seq<uint8>)
    ensures Join(Labels(h)) == h
    decreases |h|
  {
    LabelsStep(h);
    FindSpec(h, Dot);
    if Find(h, Dot).Some? {
      var d := Find(h, Dot).value;
      JoinLabels(h[d + 1..]);
      JoinCons(h[..d], Labels(h[d + 1..]));
      DotSplit(h, d);
    }
  }

  lemma JoinCons(l: seq<uint8>, ls: seq<seq<uint8>>)
    requires |ls| >= 1
    ensures Join([l] + ls) == l + [Dot] + Join(ls)
  {
    assert ([l] + ls)[0] == l && ([l] + ls)[1..] == ls;
  }

  lemma DotSplit(h: seq<uint8>, d: nat)
    requires d < |h| && h[d] == Dot
    ensures h[..d] + [Dot] + h[d + 1..] == h
  {
  }

  /** No label holds a '.'. */
  lemma {:induction false} LabelsDotFree(h: seq<uint8>)
    ensures forall i :: 0 <= i < |Labels(h)| ==> Dot !in Labels(h)[i]
    decreases |h|
  {
    LabelsStep(h);
    FindSpec(h, Dot);
    match Find(h, Dot)
    case None =>
    case Some(d) =>
      var rest := h[d + 1..];
      LabelsDotFree(rest);
      var ls := Labels(h);
      forall i | 0 <= i < |ls|
        ensures Dot !in ls[i]
      {
        if i > 0 {
          assert ls[i] == Labels(rest)[i - 1];
        }
      }
  }

  /** Joining dot-free labels and splitting again gives the same labels. */
  lemma {:induction false} LabelsJoin(ls: seq<seq<uint8>>)
    requires |ls| >= 1
    requires forall i :: 0 <= i < |ls| ==> Dot !in ls[i]
    ensures Labels(Join(ls)) == ls
  {
    var h := Join(ls);
    if |ls| == 1 {
      FindSpec(h, Dot);
    } else {
      LabelsJoin(ls[1..]);
      var rest := Join(ls[1..]);
      var n := |ls[0]|;
      assert h == ls[0] + [Dot] + rest;
      assert h[n] == Dot && h[..n] == ls[0];
      FindFirst(h, Dot, n);
      assert h[n + 1..] == rest;
      LabelsStep(h);
      assert ls == [ls[0]] + ls[1..];
    }
  }

  /** Each label costs its bytes plus a length byte, and each '.' is replaced by
      one: the encoded name is one byte longer than the hostname. */
  lemma {:induction false} EncodedLength(ls: seq<seq<uint8>>)
    requires |ls| >= 1
    ensures |EncodeLabels(ls)| == |Join(ls)| + 1
  {
    if |ls| > 1 {
      EncodedLength(ls[1..]);
    }
  }

  /** The message is the hostname plus 18 bytes: 12 of header, one extra byte for
      the first label, the terminator, QTYPE and QCLASS. */
  lemma QueryMessageLength(q: DnsQuery)
    ensures |QueryMessage(q)| == |q.hostname| + 18
    ensures |QName(q.hostname)| == |q.hostname| + 2
  {
    EncodedLength(Labels(q.hostname));
    JoinLabels(q.hostname);
  }

  /** The header carries the query's identifier and announces one question of a
      standard query with the RD bit set. */
  lemma HeaderFields(id: uint16)
    ensures |HeaderBytes(id)| == DnsHeaderLen
    ensures ParseHeader(HeaderBytes(id)).id == id
    ensures QueryHeader(ParseHeader(HeaderBytes(id)))
  {
  }

  /** Reading back valid labels followed by the zero byte recovers them, whatever
      follows. */
  lemma {:induction false} DecodeEncodeLabels(ls: seq<seq<uint8>>, rest: seq<uint8>)
    requires ValidLabels(ls)
    ensures DecodeLabels(EncodeLabels(ls) + [0] + rest) == Some((ls, |EncodeLabels(ls)| + 1))
  {
    var b := EncodeLabels(ls) + [0] + rest;
    if ls == [] {
      assert b[0] == 0;
    } else {
      var t := EncodeLabels(ls[1..]) + [0] + rest;
      ValidLabelsTail(ls);
      DecodeEncodeLabels(ls[1..], rest);
      EncodeLabelsCons(ls, rest);
      DecodeLabelsCons(ls[0], t);
    }
  }

  lemma EncodeLabelsCons(ls: seq<seq<uint8>>, rest: seq<uint8>)
    requires ls != []
    ensures EncodeLabels(ls) + [0] + rest == [|ls[0]| % 0x100] + ls[0] + (EncodeLabels(ls[1..]) + [0] + rest)
    ensures |EncodeLabels(ls)| == 1 + |ls[0]| + |EncodeLabels(ls[1..])|
    ensures ls == [ls[0]] + ls[1..]
  {
    AppendAssoc([|ls[0]| % 0x100] + ls[0], EncodeLabels(ls[1..]), [0]);
    AppendAssoc([|ls[0]| % 0x100] + ls[0], EncodeLabels(ls[1..]) + [0], rest);
  }

  /** One turn of the reader on a label of 1 to 63 bytes. */
  lemma DecodeLabelsCons(l: seq<uint8>, t: seq<uint8>)
    requires 1 <= |l| <= MaxLabelLen
    requires DecodeLabels(t).Some?
    ensures DecodeLabels([|l| % 0x100] + l + t)
            == Some(([l] + DecodeLabels(t).value.0, 1 + |l| + DecodeLabels(t).value.1))
  {
    var x: uint8 := |l| % 0x100;
    SmallMod(|l|);
    SplitHead(x, l, t);
    DecodeLabelsStep([x] + l + t, l, t);
  }

  lemma DecodeLabelsStep(b: seq<uint8>, l: seq<uint8>, t: seq<uint8>)
    requires 1 <= |l| <= MaxLabelLen && |b| > 0 && b[0] == |l|
    requires 1 + |l| <= |b| && b[1..1 + |l|] == l && b[1 + |l|..] == t
    requires DecodeLabels(t).Some?
    ensures DecodeLabels(b) == Some(([l] + DecodeLabels(t).value.0, 1 + |l| + DecodeLabels(t).value.1))
  {
  }

  lemma SmallMod(n: nat)
    requires n < 0x100
    ensures n % 0x100 == n
  {
  }

  lemma ValidLabelsTail(ls: seq<seq<uint8>>)
    requires ls != [] && ValidLabels(ls)
    ensures ValidLabels(ls[1..])
  {
    forall i | 0 <= i < |ls[1..]|
      ensures 1 <= |ls[1..][i]| <= MaxLabelLen && Dot !in ls[1..][i]
    {
      assert ls[1..][i] == ls[i + 1];
    }
  }

  lemma SplitHead(x: uint8, p: seq<uint8>, t: seq<uint8>)
    ensures ([x] + p + t)[0] == x
    ensures ([x] + p + t)[1..1 + |p|] == p
    ensures ([x] + p + t)[1 + |p|..] == t
  {
  }

  /** Whatever the reader accepts is exactly the encoding of the labels it returns. */
  lemma {:induction false} EncodeDecodeLabels(b: seq<uint8>)
    requires DecodeLabels(b).Some?
    ensures var (ls, k) := DecodeLabels(b).value;
            b[..k] == EncodeLabels(ls) + [0]
            && forall i :: 0 <= i < |ls| ==> 1 <= |ls[i]| <= MaxLabelLen
    decreases |b|
  {
    if b[0] != 0 {
      var n := b[0] as int;
      var tail := b[1 + n..];
      DecodeLabelsUncons(b);
      EncodeDecodeLabels(tail);
      var ls := DecodeLabels(tail).value.0;
      var k := DecodeLabels(tail).value.1;
      EncodeLabelsPrefix(b, n, ls, k);
      LabelBoundsCons(b[1..1 + n], ls);
    }
  }

  /** A length byte n, n label bytes, then the encoding of ls and the zero byte. */
  lemma EncodeLabelsPrefix(b: seq<uint8>, n: nat, ls: seq<seq<uint8>>, k: nat)
    requires 1 <= n < 0x100 && 1 + n + k <= |b| && b[0] == n
    requires b[1 + n..][..k] == EncodeLabels(ls) + [0]
    ensures b[..1 + n + k] == EncodeLabels([b[1..1 + n]] + ls) + [0]
  {
    var l := b[1..1 + n];
    EncodeLabelsOfCons(l, ls);
    SmallMod(n);
    PrefixCons(b, n, k);
    AppendAssoc([n] + l, EncodeLabels(ls), [0]);
  }

  lemma LabelBoundsCons(l: seq<uint8>, ls: seq<seq<uint8>>)
    requires 1 <= |l| <= MaxLabelLen
    requires forall i :: 0 <= i < |ls| ==> 1 <= |ls[i]| <= MaxLabelLen
    ensures forall i :: 0 <= i < |[l] + ls| ==> 1 <= |([l] + ls)[i]| <= MaxLabelLen
  {
    forall i | 0 <= i < |[l] + ls|
      ensures 1 <= |([l] + ls)[i]| <= MaxLabelLen
    {
      if i > 0 {
        assert ([l] + ls)[i] == ls[i - 1];
      }
    }
  }

  /** One turn of the reader on a non-zero length byte. */
  lemma DecodeLabelsUncons(b: seq<uint8>)
    requires DecodeLabels(b).Some? && b[0] != 0
    ensures 1 <= b[0] <= MaxLabelLen && 1 + b[0] <= |b| && DecodeLabels(b[1 + b[0]..]).Some?
    ensures DecodeLabels(b).value
            == ([b[1..1 + b[0]]] + DecodeLabels(b[1 + b[0]..]).value.0, 1 + b[0] + DecodeLabels(b[1 + b[0]..]).value.1)
  {
  }

  lemma EncodeLabelsOfCons(l: seq<uint8>, ls: seq<seq<uint8>>)
    ensures EncodeLabels([l] + ls) == [|l| % 0x100] + l + EncodeLabels(ls)
  {
    assert ([l] + ls)[0] == l && ([l] + ls)[1..] == ls;
  }

  lemma PrefixCons(b: seq<uint8>, n: nat, k: nat)
    requires 1 + n + k <= |b|
    ensures b[..1 + n + k] == [b[0]] + b[1..1 + n] + b[1 + n..][..k]
  {
  }

  /** Round trip: a query for a valid hostname is read back as itself. */
  lemma DecodeQueryMessage(q: DnsQuery)
    requires q.qtype == "A" && ValidHostname(q.hostname)
    ensures DecodeQuery(QueryMessage(q)) == Some(q)
  {
    var ls := Labels(q.hostname);
    QueryMessageSplit(q.queryId, EncodeLabels(ls));
    DecodeEncodeLabels(ls, U16(QTypeA) + U16(QClassIn));
    JoinLabels(q.hostname);
    DecodeQueryOfParts(QueryMessage(q), q.queryId, ls, |EncodeLabels(ls)| + 1);
  }

  /** Where the parts of a message lie. */
  lemma QueryMessageSplit(id: uint16, labels: seq<uint8>)
    ensures var m := HeaderBytes(id) + (labels + [0]) + U16(QTypeA) + U16(QClassIn);
            var k := |labels| + 1;
            |m| == DnsHeaderLen + k + 4 && m[..DnsHeaderLen] == HeaderBytes(id)
            && m[DnsHeaderLen..] == labels + [0] + (U16(QTypeA) + U16(QClassIn))
            && ReadU16(m, DnsHeaderLen + k) == QTypeA && ReadU16(m, DnsHeaderLen + k + 2) == QClassIn
  {
    var m := HeaderBytes(id) + (labels + [0]) + U16(QTypeA) + U16(QClassIn);
    assert m[DnsHeaderLen..] == labels + [0] + (U16(QTypeA) + U16(QClassIn));
  }

  /** The reader accepts a message built from an encoder header, valid labels and
      the A/IN question fields. */
  lemma DecodeQueryOfParts(m: seq<uint8>, id: uint16, ls: seq<seq<uint8>>, k: nat)
    requires DnsHeaderLen + k + 4 == |m| && m[..DnsHeaderLen] == HeaderBytes(id)
    requires DecodeLabels(m[DnsHeaderLen..]) == Some((ls, k))
    requires |ls| >= 1 && ValidLabels(ls)
    requires ReadU16(m, DnsHeaderLen + k) == QTypeA && ReadU16(m, DnsHeaderLen + k + 2) == QClassIn
    ensures DecodeQuery(m) == Some(DnsQuery("A", Join(ls), id))
  {
    HeaderFields(id);
    ParseHeaderPrefix(m);
  }

  /** The header fields depend on the first 12 bytes only. */
  lemma ParseHeaderPrefix(m: seq<uint8>)
    requires DnsHeaderLen <= |m|
    ensures ParseHeader(m) == ParseHeader(m[..DnsHeaderLen])
  {
  }

  /** Conversely, every message the reader accepts is the encoding of the query it
      returns, and that query's hostname is valid. */
  lemma QueryMessageOfDecode(m: seq<uint8>)
    requires DecodeQuery(m).Some?
    ensures QueryMessage(DecodeQuery(m).value) == m
    ensures ValidHostname(DecodeQuery(m).value.hostname)
  {
    var q := DecodeQuery(m).value;
    DecodeQueryParts(m);
    var (ls, k) := DecodeLabels(m[DnsHeaderLen..]).value;
    EncodeDecodeLabels(m[DnsHeaderLen..]);
    LabelsJoin(ls);
    assert QName(q.hostname) == m[DnsHeaderLen..][..k];
    HeaderOfParse(m);
    AssembleQuery(m, q.queryId, QName(q.hostname));
  }

  /** What the reader checked when it accepted a message. */
  lemma DecodeQueryParts(m: seq<uint8>)
    requires DecodeQuery(m).Some?
    ensures DnsHeaderLen <= |m| && QueryHeader(ParseHeader(m))
    ensures DecodeLabels(m[DnsHeaderLen..]).Some?
    ensures var (ls, k) := DecodeLabels(m[DnsHeaderLen..]).value;
            |ls| >= 1 && ValidLabels(ls) && |m| == DnsHeaderLen + k + 4
            && ReadU16(m, DnsHeaderLen + k) == QTypeA && ReadU16(m, DnsHeaderLen + k + 2) == QClassIn
            && DecodeQuery(m).value == DnsQuery("A", Join(ls), ReadU16(m, 0))
  {
  }

  /** A message whose parts are the header, the name and the two question fields
      is their concatenation. */
  lemma AssembleQuery(m: seq<uint8>, id: uint16, name: seq<uint8>)
    requires DnsHeaderLen + |name| + 4 == |m|
    requires m[..DnsHeaderLen] == HeaderBytes(id)
    requires m[DnsHeaderLen..][..|name|] == name
    requires ReadU16(m, DnsHeaderLen + |name|) == QTypeA
    requires ReadU16(m, DnsHeaderLen + |name| + 2) == QClassIn
    ensures m == HeaderBytes(id) + name + U16(QTypeA) + U16(QClassIn)
  {
    var a := DnsHeaderLen + |name|;
    U16OfRead(m[a..a + 2]);
    U16OfRead(m[a + 2..]);
    assert m[DnsHeaderLen..a] == name;
    Split4(m, DnsHeaderLen, a, a + 2);
  }

  /** A header that parses as a one-question standard query with RD set is the
      header the encoder writes for its identifier. */
  lemma HeaderOfParse(m: seq<uint8>)
    requires DnsHeaderLen <= |m| && QueryHeader(ParseHeader(m))
    ensures m[..DnsHeaderLen] == HeaderBytes(ReadU16(m, 0))
  {
    U16OfRead(m[..2]);
    U16OfRead(m[4..6]);
    U16OfRead(m[6..8]);
    U16OfRead(m[8..10]);
    U16OfRead(m[10..12]);
    assert m[2] == 1 && m[3] == 0;
  }

  lemma Split4(m: seq<uint8>, a: nat, b: nat, c: nat)
    requires a <= b <= c <= |m|
    ensures m == m[..a] + m[a..b] + m[b..c] + m[c..]
  {
  }
}
