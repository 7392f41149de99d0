/** The bridge process itself: its global state (the registered services,
    the id buffer, getline's line buffer and the stream to the child), the
    handshake in main, and the four handlers the table API calls. */
module Engine {
  import opened CText
  import opened Services
  import opened Wire
  import opened Registration
  import opened Operations

  /** The configuration block written before the child registers. */
  const CONFIG: string :=
    "config|smtpd-version|7.4.0\n" + "config|protocol|" + ProtocolVersion + "\n" + "config|ready\n"

  /** strlcpy(dst, src, dst.Length), the C library's bounded copy; returns
      the length of `src`. */
  method CopyOut(dst: array<char>, src: CString) returns (n: nat)
    modifies dst
    ensures n == |src|
    ensures dst[..] == Strlcpy(old(dst[..]), src)
  {
    n := |src|;
    if dst.Length == 0 {
      return;
    }
    var m := if |src| < dst.Length then |src| else dst.Length - 1;
    forall i | 0 <= i < m {
      dst[i] := src[i];
    }
    dst[m] := '\0';
    assert dst[..] == src[..m] + ['\0'] + old(dst[..])[m + 1..];
  }

  class Bridge {
    /** The table's name, as the table API reports it. */
    const table: CString
    /** Whether the child's output ends in a read error rather than a
        clean end of file. */
    const readError: bool
    /** The services the child registered. */
    var services: set<Service>
    /** The id buffer: the correlation id of the latest request. */
    var id: CString
    /** getline's buffer: the latest line read, newline stripped. */
    var line: string
    /** Everything written to the child so far. */
    var out: string
    /** The lines the child has yet to deliver. */
    var inp: seq<string>

    constructor(table: CString, inp: seq<string>, readError: bool)
      ensures this.table == table && this.inp == inp && this.readError == readError
      ensures services == {} && id == "" && line == "" && out == ""
    {
      this.table := table;
      this.inp := inp;
      this.readError := readError;
      services := {};
      id := "";
      line := "";
      out := "";
    }

    /** getline, then the trailing newline dropped; false at end of input. */
    method ReadLine() returns (got: bool)
      modifies this`inp, this`line
      ensures got <==> old(inp) != []
      ensures got ==> line == StripNewline(old(inp)[0]) && inp == old(inp)[1..]
      ensures !got ==> inp == old(inp) && line == old(line)
    {
      if inp == [] {
        return false;
      }
      line := inp[0];
      inp := inp[1..];
      if |line| > 0 && line[|line| - 1] == '\n' {
        line := line[..|line| - 1];
      }
      return true;
    }

    /** nextid: a fresh correlation id, the random value in lower-case hex;
        at most eight digits, so it always fits the 64-byte buffer. */
    method NextId(rand: uint32) returns (s: CString)
      modifies this`id
      ensures id == IdOf(rand) && s == id
      ensures |id| < 64
    {
      id := IdOf(rand);
      s := id;
    }

    /** send_request: writes one request line for `op` with a fresh id; a
        parameter goes out only together with a service. The result says
        whether the flush succeeded. */
    method SendRequest(op: Op, service: Option<Service>, param: Option<CString>, now: TimeVal, rand: uint32, flushed: bool)
      returns (ok: bool)
      modifies this`out, this`id
      ensures id == IdOf(rand)
      ensures out == old(out) + RequestLine(Request(now, table, op, service, IdOf(rand), param))
      ensures ok == flushed
    {
      ghost var r := Request(now, table, op, service, IdOf(rand), param);
      var head := ["table", ProtocolVersion, Stamp(now), table, OpName(op)];
      assert head == Head(r);
      var msg := Join(head, '|');
      var nid := NextId(rand);
      match service {
        case Some(k) =>
          JoinSnoc(head, ServiceName(k), '|');
          JoinSnoc(head + [ServiceName(k)], nid, '|');
          msg := msg + "|" + ServiceName(k) + "|" + nid;
          if param.Some? {
            JoinSnoc(head + [ServiceName(k)] + [nid], param.value, '|');
            msg := msg + "|" + param.value;
            assert Fields(r) == head + [ServiceName(k)] + [nid] + [param.value];
          } else {
            assert Fields(r) == head + [ServiceName(k)] + [nid];
          }
          msg := msg + "\n";
        case None =>
          JoinSnoc(head, nid, '|');
          msg := msg + "|" + nid + "\n";
          assert Fields(r) == head + [nid];
      }
      out := out + msg;
      ok := flushed;
    }

    /** parse_reply: reads one line and walks past `<typ>|<id>|`; the
        payload is the rest of the line as a C string. */
    method ParseReply(typ: CString) returns (rep: Reply)
      modifies this`inp, this`line
      ensures rep == ReadReply(old(inp), typ, id)
      ensures inp == Rest(old(inp))
      ensures old(inp) != [] ==> line == StripNewline(old(inp)[0])
      ensures old(inp) == [] ==> line == old(line)
    {
      var got := ReadLine();
      if !got {
        return ReadFailed;
      }
      var l := line;
      var len := |typ|;
      if !(len <= |l| && l[..len] == typ) {
        return Mismatch;
      }
      var pos := len;
      if !(pos < |l| && l[pos] == '|') {
        return Mismatch;
      }
      pos := pos + 1;
      len := |id|;
      if !(pos + len <= |l| && l[pos..pos + len] == id) {
        return Mismatch;
      }
      pos := pos + len;
      if !(pos < |l| && l[pos] == '|') {
        return Mismatch;
      }
      pos := pos + 1;
      return Payload(CStr(l[pos..]));
    }

    /** The handshake in main: the configuration block, then registration
        lines until `register|ready` or the end of input. `configWritten`
        says whether writing and flushing the block left the stream's error
        indicator clear. On success the registered services are exactly the
        handshake's, and no line after `register|ready` has been read. */
    method Start(configWritten: bool) returns (h: Handshake)
      requires services == {}
      modifies this`out, this`services, this`inp, this`line
      ensures out == old(out) + CONFIG
      ensures h == Startup(old(inp), readError, configWritten)
      ensures h.Negotiated? ==> h.consumed <= |old(inp)| && services == h.services && inp == old(inp)[h.consumed..]
    {
      ghost var start := out;
      out := out + "config|smtpd-version|7.4.0\n";
      out := out + "config|protocol|" + ProtocolVersion + "\n";
      out := out + "config|ready\n";
      assert out == start + CONFIG;
      ghost var lines := inp;
      ghost var rs := Kinds(lines);
      var i := 0;
      var atEnd := true;
      while true
        invariant 0 <= i <= |lines| && inp == lines[i..]
        invariant out == start + CONFIG
        invariant Negotiate(rs, 0, {}, readError) == Negotiate(rs, i, services, readError)
        decreases |inp|
      {
        var got := ReadLine();
        if !got {
          break;
        }
        assert rs[i] == Classify(line);
        i := i + 1;
        if |line| < 9 || line[..9] != "register|" {
          return Failed(InvalidLine(line));
        }
        var name := CStr(line[9..]);
        if name == "ready" {
          atEnd := false;
          break;
        }
        var k := ServiceOf(name);
        if k.None? {
          return Failed(UnknownService(name));
        }
        services := services + {k.value};
      }
      if (atEnd && readError) || !configWritten {
        return Failed(StreamError);
      }
      if services == {} {
        return Failed(NoServices);
      }
      return Negotiated(services, i);
    }

    /** table_procexec_update: asks the child to reload; any reply other
        than `ok` is a failure, logged unless it is `error`. */
    method OnUpdate(now: TimeVal, rand: uint32, flushed: bool) returns (a: Answer)
      modifies this`out, this`id, this`inp, this`line
      ensures out == old(out) + RequestLine(Request(now, table, Op.Update, None, IdOf(rand), None))
      ensures id == IdOf(rand)
      ensures inp == if flushed then Rest(old(inp)) else old(inp)
      ensures a == Finish(Respond(Op.Update, flushed, old(inp), IdOf(rand)), 0)
    {
      var ok := SendRequest(Op.Update, None, None, now, rand, flushed);
      if !ok {
        return Fatal(Unflushed);
      }
      var rep := ParseReply(ResultType(Op.Update));
      match rep {
        case ReadFailed => return Fatal(NoReply);
        case Mismatch => return Fatal(Malformed);
        case Payload(r) =>
          if r == "ok" {
            return Answer(1, false);
          }
          return Answer(0, r != "error");
      }
    }

    /** table_procexec_check: -1 at once for a service the child did not
        register; otherwise 1 for `found` and -1 for anything else. */
    method OnCheck(k: Service, key: CString, now: TimeVal, rand: uint32, flushed: bool) returns (a: Answer)
      modifies this`out, this`id, this`inp, this`line
      ensures k !in services ==>
        a == Answer(-1, false) && out == old(out) && id == old(id) && inp == old(inp) && line == old(line)
      ensures k in services ==>
        && out == old(out) + RequestLine(Request(now, table, Op.Check, Some(k), IdOf(rand), Some(key)))
        && id == IdOf(rand)
        && inp == (if flushed then Rest(old(inp)) else old(inp))
        && a == Finish(Respond(Op.Check, flushed, old(inp), IdOf(rand)), 0)
    {
      if k !in services {
        return Answer(-1, false);
      }
      var ok := SendRequest(Op.Check, Some(k), Some(key), now, rand, flushed);
      if !ok {
        return Fatal(Unflushed);
      }
      var rep := ParseReply(ResultType(Op.Check));
      match rep {
        case ReadFailed => return Fatal(NoReply);
        case Mismatch => return Fatal(Malformed);
        case Payload(r) =>
          if r == "found" {
            return Answer(1, false);
          }
          return Answer(-1, r != "error");
      }
    }

    /** table_procexec_lookup: -1 at once for an unregistered service;
        otherwise a `found|<value>` reply is copied into `dst` (-1 with a
        warning when it does not fit), `not-found` is 0, anything else -1. */
    method OnLookup(k: Service, key: CString, dst: array<char>, now: TimeVal, rand: uint32, flushed: bool)
      returns (a: Answer)
      modifies this`out, this`id, this`inp, this`line, dst
      ensures k !in services ==>
        && a == Answer(-1, false) && out == old(out) && id == old(id) && inp == old(inp) && line == old(line)
        && dst[..] == old(dst[..])
      ensures k in services ==>
        && out == old(out) + RequestLine(Request(now, table, Op.Lookup, Some(k), IdOf(rand), Some(key)))
        && id == IdOf(rand)
        && inp == (if flushed then Rest(old(inp)) else old(inp))
        && a == Finish(Respond(Op.Lookup, flushed, old(inp), IdOf(rand)), dst.Length)
        && dst[..] == Stored(Respond(Op.Lookup, flushed, old(inp), IdOf(rand)), old(dst[..]))
    {
      if k !in services {
        return Answer(-1, false);
      }
      var ok := SendRequest(Op.Lookup, Some(k), Some(key), now, rand, flushed);
      if !ok {
        return Fatal(Unflushed);
      }
      var rep := ParseReply(ResultType(Op.Lookup));
      match rep {
        case ReadFailed => return Fatal(NoReply);
        case Mismatch => return Fatal(Malformed);
        case Payload(r) =>
          if |r| >= 6 && r[..6] == "found|" {
            var n := CopyOut(dst, r[6..]);
            if n >= dst.Length {
              return Answer(-1, true);
            }
            return Answer(1, false);
          }
          if r == "not-found" {
            return Answer(0, false);
          }
          return Answer(-1, r != "error");
      }
    }

    /** table_procexec_fetch, with the value taken from the reply: -1 at
        once for an unregistered service; otherwise `not-found` is 0,
        `error` is -1, a reply without the `found|` prefix is fatal, and
        the value is copied into `dst` (-1 when it does not fit). */
    method OnFetch(k: Service, dst: array<char>, now: TimeVal, rand: uint32, flushed: bool) returns (a: Answer)
      modifies this`out, this`id, this`inp, this`line, dst
      ensures k !in services ==>
        && a == Answer(-1, false) && out == old(out) && id == old(id) && inp == old(inp) && line == old(line)
        && dst[..] == old(dst[..])
      ensures k in services ==>
        && out == old(out) + RequestLine(Request(now, table, Op.Fetch, Some(k), IdOf(rand), None))
        && id == IdOf(rand)
        && inp == (if flushed then Rest(old(inp)) else old(inp))
        && a == Finish(Respond(Op.Fetch, flushed, old(inp), IdOf(rand)), dst.Length)
        && dst[..] == Stored(Respond(Op.Fetch, flushed, old(inp), IdOf(rand)), old(dst[..]))
    {
      if k !in services {
        return Answer(-1, false);
      }
      var ok := SendRequest(Op.Fetch, Some(k), None, now, rand, flushed);
      if !ok {
        return Fatal(Unflushed);
      }
      var rep := ParseReply(ResultType(Op.Fetch));
      match rep {
        case ReadFailed => return Fatal(NoReply);
        case Mismatch => return Fatal(Malformed);
        case Payload(r) =>
          if r == "not-found" {
            return Answer(0, false);
          }
          if r == "error" {
            return Answer(-1, false);
          }
          if !(|r| >= 6 && r[..6] == "found|") {
            return Fatal(Malformed);
          }
          var n := CopyOut(dst, r[6..]);
          if n >= dst.Length {
            return Answer(-1, false);
          }
          return Answer(1, false);
      }
    }
  }
}
