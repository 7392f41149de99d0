/** The request and reply lines of the bridge's `|`-delimited protocol:
    how a request is written, how a child can read it back, and how a
    reply is matched against the request outstanding. */
module Wire {
  import opened CText
  import opened Numerals
  import opened Services

  const ProtocolVersion: string := "0.1"

  /** The four operations the bridge forwards. */
  datatype Op = Update | Check | Lookup | Fetch

  function OpName(op: Op): (s: string)
    ensures '|' !in s && '\n' !in s
  {
    match op
    case Update => "update"
    case Check => "check"
    case Lookup => "lookup"
    case Fetch => "fetch"
  }

  function ParseOp(s: string): (op: Option<Op>)
    ensures op.Some? ==> OpName(op.value) == s
    ensures forall o :: OpName(o) == s ==> op == Some(o)
  {
    if s == "update" then Some(Update)
    else if s == "check" then Some(Check)
    else if s == "lookup" then Some(Lookup)
    else if s == "fetch" then Some(Fetch)
    else None
  }

  /** The type a reply to `op` carries: `update-result`, `check-result`, ... */
  function ResultType(op: Op): string
  {
    OpName(op) + "-result"
  }

  /** What gettimeofday fills in. */
  datatype TimeVal = TimeVal(sec: int, usec: nat)

  /** `%lld.%06ld` of a time value. */
  function Stamp(t: TimeVal): string
  {
    Decimal(t.sec) + "." + ZeroPad(Numeral(t.usec, 10), 6)
  }

  function ParseStamp(f: string): Option<TimeVal>
  {
    var parts := Split(f, '.');
    if |parts| != 2 then None
    else
      match (ParseDecimal(parts[0]), ParseUnsigned(parts[1], 10))
      case (Some(s), Some(u)) => Some(TimeVal(s, u))
      case _ => None
  }

  lemma StampRoundTrip(t: TimeVal)
    ensures ParseStamp(Stamp(t)) == Some(t)
    ensures '|' !in Stamp(t) && '\n' !in Stamp(t)
  {
    var a := Decimal(t.sec);
    var u := Numeral(t.usec, 10);
    var b := ZeroPad(u, 6);
    DecimalRoundTrip(t.sec);
    NumeralRoundTrip(t.usec, 10);
    ZeroPadValue(u, 6, 10);
    NumeralAvoids(b, 10, '.');
    NumeralAvoids(b, 10, '|');
    NumeralAvoids(b, 10, '\n');
    assert Stamp(t) == Join([a, b], '.');
    SplitJoin([a, b], '.');
  }

  /** The random value arc4random hands to nextid. */
  type uint32 = n: int | 0 <= n < 0x1_0000_0000

  /** The correlation id nextid prints with `%llx`: the lower-case hex
      digits of the random value. At most eight of them, so the write into
      the 64-byte id buffer is never truncated. */
  function IdOf(rand: uint32): (id: CString)
    ensures 1 <= |id| <= 8
    ensures IsNumeral(id, 16) && Value(id, 16) == rand
    ensures '|' !in id
  {
    var s := Numeral(rand, 16);
    NumeralRoundTrip(rand, 16);
    assert Pow(16, 8) == 0x1_0000_0000;
    NumeralWidth(rand, 16, 8);
    NumeralAvoids(s, 16, '\0');
    NumeralAvoids(s, 16, '|');
    s
  }

  /** One request as send_request writes it. `service == None` stands for
      the service argument -1, which only update passes. */
  datatype Request = Request(
    time: TimeVal, table: CString, op: Op,
    service: Option<Service>, id: string, param: Option<CString>)

  /** The fields of a request line, in order. */
  function Fields(r: Request): seq<string>
  {
    Head(r)
    + match r.service
      case None => [r.id]
      case Some(k) => [ServiceName(k), r.id] + (match r.param case None => [] case Some(p) => [p])
  }

  /** The line send_request writes for `r`: its fields joined by `|`, then
      the terminator. */
  function RequestLine(r: Request): string
  {
    Join(Fields(r), '|') + "\n"
  }

  lemma JoinSnoc(fs: seq<string>, g: string, d: char)
    requires |fs| >= 1
    ensures Join(fs + [g], d) == Join(fs, d) + [d] + g
    decreases |fs|
  {
    if |fs| > 1 {
      assert (fs + [g])[1..] == fs[1..] + [g];
      JoinSnoc(fs[1..], g, d);
    }
  }

  /** The fields every request starts with. */
  function Head(r: Request): seq<string>
  {
    ["table", ProtocolVersion, Stamp(r.time), r.table, OpName(r.op)]
  }

  /** A request whose free-text fields hold neither the field delimiter nor
      the line terminator, and which carries no parameter without a service
      (send_request prints none then). */
  predicate Unambiguous(r: Request)
  {
    && '|' !in r.table && '\n' !in r.table
    && '|' !in r.id && '\n' !in r.id
    && (r.param.Some? ==> '|' !in r.param.value && '\n' !in r.param.value)
    && (r.service.None? ==> r.param.None?)
  }

  /** How a child reads the fields of a request line back. */
  function FromFields(fs: seq<string>): Option<Request>
  {
    if |fs| < 6 || |fs| > 8 || fs[0] != "table" || fs[1] != ProtocolVersion || '\0' in fs[3] then None
    else
      match (ParseStamp(fs[2]), ParseOp(fs[4]))
      case (Some(t), Some(op)) =>
        if |fs| == 6 then Some(Request(t, fs[3], op, None, fs[5], None))
        else
          (match ServiceOf(fs[5])
           case None => None
           case Some(k) =>
             if |fs| == 7 then Some(Request(t, fs[3], op, Some(k), fs[6], None))
             else if '\0' in fs[7] then None
             else var key: CString := fs[7]; Some(Request(t, fs[3], op, Some(k), fs[6], Some(key))))
      case _ => None
  }

  /** How a child reads a request line back: one line, ended by its only
      newline, split into fields. */
  function ParseRequest(line: string): Option<Request>
  {
    if |line| == 0 || line[|line| - 1] != '\n' || '\n' in line[..|line| - 1] then None
    else FromFields(Split(line[..|line| - 1], '|'))
  }

  lemma FromFieldsRoundTrip(r: Request)
    requires Unambiguous(r)
    ensures FromFields(Fields(r)) == Some(r)
  {
    var fs := Fields(r);
    StampRoundTrip(r.time);
    assert fs[2] == Stamp(r.time) && fs[3] == r.table && fs[4] == OpName(r.op);
    match r.service {
      case None =>
        assert fs == ["table", ProtocolVersion, Stamp(r.time), r.table, OpName(r.op), r.id];
      case Some(k) =>
        assert fs[5] == ServiceName(k) && fs[6] == r.id;
        match r.param {
          case None =>
            assert |fs| == 7;
          case Some(p) =>
            assert |fs| == 8 && fs[7] == p;
        }
    }
  }

  /** Every request the bridge writes whose free-text fields hold neither
      `|` nor a newline is one line that reads back field for field. */
  lemma RequestRoundTrip(r: Request)
    requires Unambiguous(r)
    ensures ParseRequest(RequestLine(r)) == Some(r)
  {
    var fs := Fields(r);
    var line := RequestLine(r);
    assert line[..|line| - 1] == Join(fs, '|');
    StampRoundTrip(r.time);
    forall i | 5 <= i < |fs| ensures '|' !in fs[i] && '\n' !in fs[i] {
      match r.service {
        case None =>
          assert fs[i] == r.id;
        case Some(k) =>
          if i == 5 {
            assert fs[i] == ServiceName(k);
          } else if i == 6 {
            assert fs[i] == r.id;
          } else {
            assert fs[i] == r.param.value;
          }
      }
    }
    assert fs[..5] == Head(r);
    forall i | 0 <= i < |fs| ensures '\n' !in fs[i] {
      if i < 5 {
        assert fs[i] == Head(r)[i];
      }
    }
    JoinHolds(fs, '|', '\n');
    SplitJoin(fs, '|');
    FromFieldsRoundTrip(r);
  }

  /** A key holding the delimiter is written unescaped, so the line has more
      fields than the grammar allows and ParseRequest, which reads a fixed
      number of fields, rejects it. */
  lemma KeyWithDelimiterUnreadable(r: Request)
    requires r.service.Some? && r.param.Some? && '|' in r.param.value
    ensures ParseRequest(RequestLine(r)) == None
  {
    var p := r.param.value;
    var i :| 0 <= i < |p| && p[i] == '|';
    var f7 := ["table", ProtocolVersion, Stamp(r.time), r.table, OpName(r.op), ServiceName(r.service.value), r.id];
    assert Fields(r) == f7 + [p];
    JoinSnoc(f7, p, '|');
    var line := RequestLine(r);
    var a, b := p[..i], p[i + 1..];
    assert p == a + ['|'] + b;
    assert line[..|line| - 1] == Join(f7, '|') + ['|'] + (a + ['|'] + b);
    assert line[..|line| - 1] == (Join(f7, '|') + ['|'] + a) + ['|'] + b;
    SplitAppend(Join(f7, '|') + ['|'] + a, b, '|');
    SplitAppend(Join(f7, '|'), a, '|');
    SplitJoinAtLeast(f7, '|');
  }

  /** A table name or key holding a newline is written unescaped too, so a
      child reading lines gets the request in two pieces: ParseRequest
      rejects the line. */
  lemma NewlineSplitsRequest(r: Request)
    requires '\n' in r.table || (r.service.Some? && r.param.Some? && '\n' in r.param.value)
    ensures ParseRequest(RequestLine(r)) == None
  {
    var fs := Fields(r);
    var line := RequestLine(r);
    assert line[..|line| - 1] == Join(fs, '|');
    assert fs[3] == r.table;
    if '\n' !in r.table {
      assert fs[|fs| - 1] == r.param.value;
    }
    JoinHolds(fs, '|', '\n');
  }

  /** The line a child sends back: `<type>|<id>|<payload>`. */
  function ReplyLine(typ: string, id: string, payload: string): string
  {
    typ + "|" + id + "|" + payload
  }

  /** parse_reply on a line already stripped of its newline: the payload
      after `<typ>|<id>|`, cut at a NUL as C would, or None (NULL). */
  function MatchReply(l: string, typ: string, id: string): Option<CString>
  {
    var n, m := |typ|, |id|;
    if n + m + 2 <= |l| && l[..n] == typ && l[n] == '|' && l[n + 1..n + 1 + m] == id && l[n + 1 + m] == '|'
    then Some(CStr(l[n + m + 2..]))
    else None
  }

  /** A line matches exactly when it is a reply line for this type and id. */
  lemma ReplyShape(l: string, typ: string, id: string)
    ensures MatchReply(l, typ, id).Some? <==>
      |typ| + |id| + 2 <= |l| && l == ReplyLine(typ, id, l[|typ| + |id| + 2..])
  {
  }

  /** Round trip: the reply to the outstanding request, with or without its
      newline, yields exactly its payload. */
  lemma ReplyRoundTrip(typ: string, id: string, p: CString, nl: string)
    requires nl == "" || nl == "\n"
    requires '\n' !in p
    ensures MatchReply(StripNewline(ReplyLine(typ, id, p) + nl), typ, id) == Some(p)
  {
    var l := ReplyLine(typ, id, p);
    assert StripNewline(l + nl) == l by {
      if nl == "" {
        assert l + nl == l;
        assert l[|l| - 1] != '\n' by {
          if p == [] { assert l[|l| - 1] == '|'; } else { assert l[|l| - 1] == p[|p| - 1]; }
        }
      } else {
        assert (l + nl)[..|l + nl| - 1] == l;
      }
    }
    var n, m := |typ|, |id|;
    assert l[..n] == typ;
    assert l[n] == '|';
    assert l[n + 1..n + 1 + m] == id;
    assert l[n + 1 + m] == '|';
    assert l[n + m + 2..] == p;
    CStrOfCString(p);
  }

  /** Where a line holds `a` followed by `|`, no other delimiter-free field
      can be read there. */
  lemma FieldMismatch(l: string, k: nat, a: string, b: string)
    requires k + |a| < |l| && l[k..k + |a|] == a && l[k + |a|] == '|'
    requires '|' !in a && '|' !in b && a != b
    ensures !(k + |b| < |l| && l[k..k + |b|] == b && l[k + |b|] == '|')
  {
  }

  /** A reply carrying another id than the outstanding one is rejected. */
  lemma StaleReplyRejected(typ: string, id: string, other: string, p: string, nl: string)
    requires '|' !in typ && '|' !in id && '|' !in other && id != other
    ensures MatchReply(StripNewline(ReplyLine(typ, other, p) + nl), typ, id) == None
  {
    var l := StripNewline(ReplyLine(typ, other, p) + nl);
    StripPrefix(typ, other, p, nl);
    var n := |typ|;
    FieldMismatch(l, n + 1, other, id);
  }

  /** A reply of another type than the one expected is rejected. */
  lemma OtherTypeRejected(typ: string, expected: string, id: string, p: string, nl: string)
    requires '|' !in typ && '|' !in expected && typ != expected
    ensures MatchReply(StripNewline(ReplyLine(typ, id, p) + nl), expected, id) == None
  {
    var l := StripNewline(ReplyLine(typ, id, p) + nl);
    StripPrefix(typ, id, p, nl);
    FieldMismatch(l, 0, typ, expected);
    if |expected| <= |l| {
      assert l[0..|expected|] == l[..|expected|];
    }
  }

  /** Stripping the newline leaves the `<typ>|<id>|` head of a reply alone. */
  lemma StripPrefix(typ: string, id: string, p: string, nl: string)
    ensures var l := StripNewline(ReplyLine(typ, id, p) + nl);
      && |typ| + |id| + 2 <= |l|
      && l[..|typ|] == typ && l[|typ|] == '|'
      && l[|typ| + 1..|typ| + 1 + |id|] == id && l[|typ| + 1 + |id|] == '|'
      && l[0..|typ|] == typ
  {
  }

  /** What parse_reply hands back: a payload, NULL for a line that does not
      match, or a failed getline. */
  datatype Reply = Payload(value: CString) | Mismatch | ReadFailed

  /** parse_reply against the lines the child has yet to deliver. */
  function ReadReply(inp: seq<string>, typ: string, id: string): Reply
  {
    if inp == [] then ReadFailed
    else
      match MatchReply(StripNewline(inp[0]), typ, id)
      case Some(p) => Payload(p)
      case None => Mismatch
  }
}
