/** What the four table operations make of the child's reply: the payload
    decoding of update, check, lookup and fetch, and the answer handed back
    to the table API. */
module Operations {
  import opened CText
  import opened Wire

  /** Why the bridge dies in the middle of an operation: the request could
      not be flushed, no reply line could be read, or the reply does not
      answer the request. */
  datatype Fault = Unflushed | NoReply | Malformed

  /** The -1 / 0 / 1 a handler returns to the table API. */
  type Code = c: int | -1 <= c <= 1

  /** What a handler does with a payload: return a code (with a warning
      logged or not), copy a value into the caller's buffer, or die. */
  datatype Decision =
    | Return(code: Code, warned: bool)
    | Copy(value: CString, warnIfTooLarge: bool)
    | Abort(fault: Fault)

  /** update: `ok` succeeds, anything else fails, and only `error` fails
      silently. Never fatal. */
  function DecodeUpdate(p: CString): (d: Decision)
    ensures d.Return?
    ensures d.code == 1 <==> p == "ok"
    ensures d.code != 1 ==> d.code == 0
    ensures d.warned <==> p != "ok" && p != "error"
  {
    if p == "ok" then Return(1, false)
    else Return(0, p != "error")
  }

  /** check: `found` means the key exists; anything else is -1, and only
      `error` is not logged. Never fatal. */
  function DecodeCheck(p: CString): (d: Decision)
    ensures d.Return?
    ensures d.code == 1 <==> p == "found"
    ensures d.code != 1 ==> d.code == -1
    ensures d.warned <==> p != "found" && p != "error"
  {
    if p == "found" then Return(1, false)
    else Return(-1, p != "error")
  }

  function HasFoundPrefix(p: CString): bool
  {
    |p| >= 6 && p[..6] == "found|"
  }

  /** lookup: `found|<value>` copies the value (a warning if it does not
      fit), `not-found` is 0, anything else -1, logged unless `error`. */
  function DecodeLookup(p: CString): (d: Decision)
    ensures d.Abort? == false
    ensures d.Copy? <==> HasFoundPrefix(p)
    ensures d.Copy? ==> p == "found|" + d.value && d.warnIfTooLarge
    ensures d.Return? ==> (d.code == 0 <==> p == "not-found") && (d.code != 0 ==> d.code == -1)
    ensures d.Return? ==> (d.warned <==> p != "not-found" && p != "error")
  {
    if HasFoundPrefix(p) then
      assert p == p[..6] + p[6..];
      Copy(p[6..], true)
    else if p == "not-found" then Return(0, false)
    else Return(-1, p != "error")
  }

  /** fetch: `not-found` is 0 and `error` -1; otherwise the payload must
      carry the `found|` prefix, whose value is copied, or the bridge dies.
      Nothing is logged. */
  function DecodeFetch(p: CString): (d: Decision)
    ensures d.Return? <==> p == "not-found" || p == "error"
    ensures d.Return? ==> !d.warned && (d.code == 0 <==> p == "not-found") && (d.code != 0 ==> d.code == -1)
    ensures d.Copy? <==> !d.Return? && HasFoundPrefix(p)
    ensures d.Copy? ==> p == "found|" + d.value && !d.warnIfTooLarge
    ensures d.Abort? ==> d.fault == Malformed
  {
    if p == "not-found" then Return(0, false)
    else if p == "error" then Return(-1, false)
    else if !HasFoundPrefix(p) then Abort(Malformed)
    else
      assert p == p[..6] + p[6..];
      Copy(p[6..], false)
  }

  function DecodePayload(op: Op, p: CString): Decision
  {
    match op
    case Update => DecodeUpdate(p)
    case Check => DecodeCheck(p)
    case Lookup => DecodeLookup(p)
    case Fetch => DecodeFetch(p)
  }

  /** One exchange after the request was written: a failed flush or a
      failed read is fatal, and so is a reply that parse_reply rejects. */
  function Respond(op: Op, flushed: bool, inp: seq<string>, id: string): (d: Decision)
    ensures !flushed ==> d == Abort(Unflushed)
    ensures flushed && inp == [] ==> d == Abort(NoReply)
    ensures flushed && ReadReply(inp, ResultType(op), id) == Mismatch ==> d == Abort(Malformed)
    ensures flushed && ReadReply(inp, ResultType(op), id).Payload? ==>
              d == DecodePayload(op, ReadReply(inp, ResultType(op), id).value)
  {
    if !flushed then Abort(Unflushed)
    else
      match ReadReply(inp, ResultType(op), id)
      case ReadFailed => Abort(NoReply)
      case Mismatch => Abort(Malformed)
      case Payload(p) => DecodePayload(op, p)
  }

  /** What the table API receives, or the fatal error that ends the bridge. */
  datatype Answer = Answer(code: Code, warned: bool) | Fatal(fault: Fault)

  /** strlcpy's result against the buffer size `sz`: a value that does not
      fit is a failure. */
  function Finish(d: Decision, sz: nat): (a: Answer)
    ensures d.Abort? <==> a.Fatal?
    ensures d.Return? ==> a == Answer(d.code, d.warned)
    ensures d.Copy? ==> a == (if |d.value| < sz then Answer(1, false) else Answer(-1, d.warnIfTooLarge))
  {
    match d
    case Return(c, w) => Answer(c, w)
    case Copy(v, w) => if |v| >= sz then Answer(-1, w) else Answer(1, false)
    case Abort(f) => Fatal(f)
  }

  /** The caller's buffer after the decision: strlcpy writes into it for a
      copy, whether or not the value fits. */
  function Stored(d: Decision, dst: seq<char>): (r: seq<char>)
    ensures |r| == |dst|
    ensures !d.Copy? ==> r == dst
  {
    if d.Copy? then Strlcpy(dst, d.value) else dst
  }

  /** A copy that is reported as a success leaves exactly the value in the
      buffer; one reported as too large leaves its longest prefix that fits. */
  lemma CopyOutcome(v: CString, w: bool, dst: seq<char>)
    ensures var a, r := Finish(Copy(v, w), |dst|), Stored(Copy(v, w), dst);
      && (a == Answer(1, false) <==> |v| < |dst|)
      && (|v| < |dst| ==> CStr(r) == v)
      && (0 < |dst| <= |v| ==> a == Answer(-1, w) && CStr(r) == v[..|dst| - 1])
      && (|dst| == 0 ==> r == dst)
  {
  }

  /** What the child may answer, in the protocol's terms. */
  datatype Verdict = Ok | Found | FoundValue(value: CString) | NotFound | Error

  function VerdictPayload(v: Verdict): CString
  {
    match v
    case Ok => "ok"
    case Found => "found"
    case FoundValue(x) => "found|" + x
    case NotFound => "not-found"
    case Error => "error"
  }

  /** The answers each operation's protocol defines. */
  predicate Expects(op: Op, v: Verdict)
  {
    match op
    case Update => v == Ok || v == Error
    case Check => v == Found || v == Error
    case Lookup => v.FoundValue? || v == NotFound || v == Error
    case Fetch => v.FoundValue? || v == NotFound || v == Error
  }

  /** Reference definition of what each defined answer means to the host:
      success, explicit absence, or failure; a found value is copied. */
  function Meaning(op: Op, v: Verdict): Decision
    requires Expects(op, v)
  {
    match v
    case Ok => Return(1, false)
    case Found => Return(1, false)
    case FoundValue(x) => Copy(x, op == Lookup)
    case NotFound => Return(0, false)
    case Error => if op == Update then Return(0, false) else Return(-1, false)
  }

  /** Every answer the protocol defines decodes to its meaning, silently. */
  lemma DecodeVerdict(op: Op, v: Verdict)
    requires Expects(op, v)
    ensures DecodePayload(op, VerdictPayload(v)) == Meaning(op, v)
  {
    var p := VerdictPayload(v);
    match v
    case FoundValue(x) =>
      assert p[..6] == "found|";
      assert p[6..] == x;
      assert p[0] == 'f';
    case NotFound =>
      assert p[..6][0] != "found|"[0];
    case Error =>
      assert p[0] != "found"[0];
    case _ =>
  }

  /** The reply line a child writes for verdict `v` to request `id`. */
  function Answering(op: Op, id: string, v: Verdict): string
  {
    ReplyLine(ResultType(op), id, VerdictPayload(v))
  }

  /** A child that answers the request just sent, with or without a
      trailing newline, gets exactly the meaning of its answer through;
      lines after the reply are not looked at. */
  lemma Exchange(op: Op, id: string, v: Verdict, nl: string, rest: seq<string>)
    requires Expects(op, v)
    requires nl == "" || nl == "\n"
    requires '\n' !in VerdictPayload(v)
    ensures Respond(op, true, [Answering(op, id, v) + nl] + rest, id) == Meaning(op, v)
  {
    ReplyRoundTrip(ResultType(op), id, VerdictPayload(v), nl);
    DecodeVerdict(op, v);
  }

  /** A `found|<value>` reply to a lookup whose buffer holds the value
      reports success and leaves exactly the value in the buffer. */
  lemma LookupFound(id: string, x: CString, dst: seq<char>)
    requires '\n' !in x && |x| < |dst|
    ensures var d := Respond(Lookup, true, [Answering(Lookup, id, FoundValue(x)) + "\n"], id);
      && Finish(d, |dst|) == Answer(1, false)
      && CStr(Stored(d, dst)) == x
  {
    var p := VerdictPayload(FoundValue(x));
    assert p[..6] == "found|" && p[6..] == x;
    Exchange(Lookup, id, FoundValue(x), "\n", []);
  }

  lemma ResultTypesDiffer(a: Op, b: Op)
    requires a != b
    ensures ResultType(a) != ResultType(b)
    ensures '|' !in ResultType(a)
  {
    var ra, rb := ResultType(a), ResultType(b);
    assert ra[..|OpName(a)|] == OpName(a);
    if |OpName(a)| == |OpName(b)| {
      assert rb[..|OpName(b)|] == OpName(b);
    } else {
      assert |ra| != |rb|;
    }
  }

  /** A reply carrying another request's id is fatal, whatever it says. */
  lemma StaleReplyFatal(op: Op, id: string, other: string, p: string, nl: string, rest: seq<string>)
    requires '|' !in id && '|' !in other && id != other
    ensures Respond(op, true, [ReplyLine(ResultType(op), other, p) + nl] + rest, id) == Abort(Malformed)
  {
    ResultTypesDiffer(op, if op == Update then Check else Update);
    StaleReplyRejected(ResultType(op), id, other, p, nl);
  }

  /** A reply to another operation is fatal, whatever it says. */
  lemma OtherReplyFatal(op: Op, other: Op, id: string, p: string, nl: string, rest: seq<string>)
    requires op != other
    ensures Respond(op, true, [ReplyLine(ResultType(other), id, p) + nl] + rest, id) == Abort(Malformed)
  {
    ResultTypesDiffer(other, op);
    ResultTypesDiffer(op, other);
    OtherTypeRejected(ResultType(other), ResultType(op), id, p, nl);
  }

  /** fetch as written copies from `k`, a pointer that is never assigned,
      instead of from the value after `found|`. */
  function DecodeFetchAsWritten(p: CString, k: CString): (d: Decision)
    ensures d == if DecodeFetch(p).Copy? then Copy(k, false) else DecodeFetch(p)
  {
    if p == "not-found" then Return(0, false)
    else if p == "error" then Return(-1, false)
    else if !HasFoundPrefix(p) then Abort(Malformed)
    else Copy(k, false)
  }

  /** As written, a found value never reaches the caller unless the
      garbage `k` happens to hold it: `fetch-result|<id>|found|bob`
      with `k` pointing at an empty string copies "" and reports success. */
  lemma FetchCopiesGarbage(x: CString, k: CString)
    requires k != x
    ensures DecodeFetchAsWritten(VerdictPayload(FoundValue(x)), k) != Meaning(Fetch, FoundValue(x))
    ensures DecodeFetchAsWritten("found|bob", "") == Copy("", false)
    ensures Finish(DecodeFetchAsWritten("found|bob", ""), 64) == Answer(1, false)
  {
  }
}
