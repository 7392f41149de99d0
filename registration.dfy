/** The handshake's registration phase: the child announces the services it
    answers, one `register|<name>` line each, and ends with
    `register|ready`. */
module Registration {
  import opened CText
  import opened Services

  /** What one registration line, newline already stripped, says. */
  datatype Registration =
    | Announce(service: Service)
    | Ready
    | NotRegistration(line: string)
    | Unknown(name: CString)

  function Classify(l: string): Registration
  {
    if |l| < 9 || l[..9] != "register|" then NotRegistration(l)
    else
      var name := CStr(l[9..]);
      if name == "ready" then Ready
      else
        match ServiceOf(name)
        case Some(k) => Announce(k)
        case None => Unknown(name)
  }

  /** A line as getline returns it, classified. */
  function Kind(raw: string): Registration
  {
    Classify(StripNewline(raw))
  }

  function Kinds(lines: seq<string>): (rs: seq<Registration>)
    ensures |rs| == |lines|
  {
    seq(|lines|, j requires 0 <= j < |lines| => Kind(lines[j]))
  }

  datatype HandshakeError =
    | InvalidLine(line: string)
    | UnknownService(name: CString)
    /** ferror on the stream after the loop: a failed getline, or a failed
        write of the configuration block on the same stream. */
    | StreamError
    | NoServices

  /** The outcome of registration: the services registered and how many
      input lines were consumed, or the fatal error that ends the bridge. */
  datatype Handshake = Negotiated(services: set<Service>, consumed: nat) | Failed(error: HandshakeError)

  /** The checks after the loop: a read error (only when input ran out),
      then an empty mask. */
  function Conclude(mask: set<Service>, consumed: nat, atEnd: bool, readError: bool): Handshake
  {
    if atEnd && readError then Failed(StreamError)
    else if mask == {} then Failed(NoServices)
    else Negotiated(mask, consumed)
  }

  /** The registration loop from line `i` on, over the lines' classifications,
      with `mask` registered so far. `readError` says whether the input ends
      in a read error rather than a clean end of file. */
  function Negotiate(rs: seq<Registration>, i: nat, mask: set<Service>, readError: bool): Handshake
    requires i <= |rs|
    decreases |rs| - i
  {
    if i == |rs| then Conclude(mask, i, true, readError)
    else
      match rs[i]
      case NotRegistration(l) => Failed(InvalidLine(l))
      case Unknown(name) => Failed(UnknownService(name))
      case Ready => Conclude(mask, i + 1, false, readError)
      case Announce(k) => Negotiate(rs, i + 1, mask + {k}, readError)
  }

  /** Registration over the raw lines the child writes, from an empty mask. */
  function Register(lines: seq<string>, readError: bool): Handshake
  {
    Negotiate(Kinds(lines), 0, {}, readError)
  }

  /** Reference definition: every service some registration in `rs` announces. */
  function Announced(rs: seq<Registration>): set<Service>
  {
    set j | 0 <= j < |rs| && rs[j].Announce? :: rs[j].service
  }

  /** The index of the first registration that is not an announcement. */
  function FirstStop(rs: seq<Registration>, i: nat): (p: nat)
    requires i <= |rs|
    ensures i <= p <= |rs|
    ensures forall j :: i <= j < p ==> rs[j].Announce?
    ensures p < |rs| ==> !rs[p].Announce?
    decreases |rs| - i
  {
    if i == |rs| || !rs[i].Announce? then i else FirstStop(rs, i + 1)
  }

  lemma {:induction false} FirstStopAt(rs: seq<Registration>, i: nat, q: nat)
    requires i <= q <= |rs|
    requires forall j :: i <= j < q ==> rs[j].Announce?
    requires q < |rs| ==> !rs[q].Announce?
    ensures FirstStop(rs, i) == q
    decreases q - i
  {
    if i < q {
      FirstStopAt(rs, i + 1, q);
    }
  }

  lemma AnnouncedConcat(a: seq<Registration>, b: seq<Registration>)
    ensures Announced(a + b) == Announced(a) + Announced(b)
  {
    var s := a + b;
    forall k | k in Announced(s) ensures k in Announced(a) + Announced(b) {
      var j :| 0 <= j < |s| && s[j].Announce? && s[j].service == k;
      if j < |a| {
        assert s[j] == a[j];
      } else {
        assert s[j] == b[j - |a|];
      }
    }
    forall k | k in Announced(a) + Announced(b) ensures k in Announced(s) {
      if k in Announced(a) {
        var j :| 0 <= j < |a| && a[j].Announce? && a[j].service == k;
        assert s[j] == a[j];
      } else {
        var j :| 0 <= j < |b| && b[j].Announce? && b[j].service == k;
        assert s[|a| + j] == b[j];
      }
    }
  }

  /** A run of announcements only adds their services to the mask. */
  lemma {:induction false} NegotiateSkips(rs: seq<Registration>, i: nat, p: nat, mask: set<Service>, readError: bool)
    requires i <= p <= |rs|
    requires forall j :: i <= j < p ==> rs[j].Announce?
    ensures Negotiate(rs, i, mask, readError) == Negotiate(rs, p, mask + Announced(rs[i..p]), readError)
    decreases p - i
  {
    if i == p {
      assert Announced(rs[i..p]) == {};
      assert mask + Announced(rs[i..p]) == mask;
    } else {
      var k := rs[i].service;
      NegotiateSkips(rs, i + 1, p, mask + {k}, readError);
      assert rs[i..p] == [rs[i]] + rs[i + 1..p];
      AnnouncedConcat([rs[i]], rs[i + 1..p]);
      assert Announced([rs[i]]) == {k} by {
        assert [rs[i]][0] == rs[i];
      }
      assert mask + {k} + Announced(rs[i + 1..p]) == mask + Announced(rs[i..p]);
    }
  }

  /** The whole registration loop in closed form: with `p` the first line
      that is not an announcement, the mask is what lines before `p`
      announce; line `p` decides the rest. */
  lemma HandshakeOutcome(rs: seq<Registration>, readError: bool)
    ensures var p := FirstStop(rs, 0);
      var mask := Announced(rs[..p]);
      Negotiate(rs, 0, {}, readError) ==
        if p == |rs| && readError then Failed(StreamError)
        else if p < |rs| && rs[p].NotRegistration? then Failed(InvalidLine(rs[p].line))
        else if p < |rs| && rs[p].Unknown? then Failed(UnknownService(rs[p].name))
        else if mask == {} then Failed(NoServices)
        else Negotiated(mask, if p < |rs| then p + 1 else p)
  {
    var p := FirstStop(rs, 0);
    NegotiateSkips(rs, 0, p, {}, readError);
    assert rs[0..p] == rs[..p];
  }

  /** Every line consumed but the last is an announcement; the last is the
      `register|ready` line unless input ran out: nothing after it is read. */
  lemma ConsumedLines(rs: seq<Registration>, readError: bool)
    requires Negotiate(rs, 0, {}, readError).Negotiated?
    ensures var n := Negotiate(rs, 0, {}, readError).consumed;
      && 1 <= n <= |rs|
      && (forall j :: 0 <= j < n - 1 ==> rs[j].Announce?)
      && (n < |rs| ==> rs[n - 1] == Ready)
      && (n == |rs| ==> rs[n - 1].Announce? || rs[n - 1] == Ready)
  {
    HandshakeOutcome(rs, readError);
  }

  /** The line a child sends to register `k`. */
  function RegisterLine(k: Service): string
  {
    "register|" + ServiceName(k) + "\n"
  }

  const READY_LINE: string := "register|ready\n"

  /** The line naming a service and the service's wire name are inverses. */
  lemma RegisterLineKind(k: Service)
    ensures Kind(RegisterLine(k)) == Announce(k)
  {
    var l := "register|" + ServiceName(k);
    assert StripNewline(RegisterLine(k)) == l;
    assert l[9..] == ServiceName(k);
    CStrOfCString(ServiceName(k));
  }

  lemma ReadyLineKind()
    ensures Kind(READY_LINE) == Ready
  {
    var l := "register|ready";
    assert StripNewline(READY_LINE) == l;
    assert l[9..] == "ready";
    CStrOfCString("ready");
  }

  function RegisterLines(ks: seq<Service>): (ls: seq<string>)
    ensures |ls| == |ks|
  {
    seq(|ks|, i requires 0 <= i < |ks| => RegisterLine(ks[i]))
  }

  lemma RegisterLinesKinds(ks: seq<Service>)
    ensures Kinds(RegisterLines(ks)) == seq(|ks|, i requires 0 <= i < |ks| => Announce(ks[i]))
  {
    forall j | 0 <= j < |ks| ensures Kinds(RegisterLines(ks))[j] == Announce(ks[j]) {
      RegisterLineKind(ks[j]);
    }
  }

  lemma AnnouncedServices(ks: seq<Service>)
    ensures Announced(seq(|ks|, i requires 0 <= i < |ks| => Announce(ks[i]))) == set k | k in ks
  {
    var rs := seq(|ks|, i requires 0 <= i < |ks| => Announce(ks[i]));
    forall k | k in ks ensures k in Announced(rs) {
      var j :| 0 <= j < |ks| && ks[j] == k;
      assert rs[j] == Announce(k);
    }
  }

  lemma KindsConcat(a: seq<string>, b: seq<string>)
    ensures Kinds(a + b) == Kinds(a) + Kinds(b)
  {
    forall j | 0 <= j < |a| + |b| ensures Kinds(a + b)[j] == (Kinds(a) + Kinds(b))[j] {
      if j < |a| { assert (a + b)[j] == a[j]; } else { assert (a + b)[j] == b[j - |a|]; }
    }
  }

  /** Announcements followed by anything: the mask is exactly the set
      announced. */
  lemma AnnouncementsThen(ks: seq<Service>, tail: seq<Registration>, readError: bool)
    ensures var announce := seq(|ks|, i requires 0 <= i < |ks| => Announce(ks[i]));
      Negotiate(announce + tail, 0, {}, readError) == Negotiate(announce + tail, |ks|, (set k | k in ks), readError)
  {
    var announce := seq(|ks|, i requires 0 <= i < |ks| => Announce(ks[i]));
    var rs := announce + tail;
    forall j | 0 <= j < |ks| ensures rs[j].Announce? {
      assert rs[j] == announce[j];
    }
    AnnouncedServices(ks);
    NegotiateSkips(rs, 0, |ks|, {}, readError);
    assert rs[0..|ks|] == announce;
    assert {} + Announced(announce) == set k | k in ks;
  }

  lemma KindsThenReady(ks: seq<Service>, rest: seq<string>)
    ensures Kinds(RegisterLines(ks) + [READY_LINE] + rest)
      == seq(|ks|, i requires 0 <= i < |ks| => Announce(ks[i])) + ([Ready] + Kinds(rest))
  {
    KindsConcat(RegisterLines(ks) + [READY_LINE], rest);
    KindsConcat(RegisterLines(ks), [READY_LINE]);
    RegisterLinesKinds(ks);
    ReadyLineKind();
    assert Kinds([READY_LINE]) == [Ready];
  }

  /** Registering names and then `ready`: the mask is exactly the set of
      services named, whatever follows is left unread, and registering
      nothing is fatal. */
  lemma RegisterThenReady(ks: seq<Service>, rest: seq<string>, readError: bool)
    ensures Register(RegisterLines(ks) + [READY_LINE] + rest, readError) ==
      if ks == [] then Failed(NoServices) else Negotiated(set k | k in ks, |ks| + 1)
  {
    var announce := seq(|ks|, i requires 0 <= i < |ks| => Announce(ks[i]));
    var tail := [Ready] + Kinds(rest);
    KindsThenReady(ks, rest);
    AnnouncementsThen(ks, tail, readError);
    assert (announce + tail)[|ks|] == Ready;
  }

  /** Input that ends, cleanly, before `register|ready` is accepted with
      what was registered; only a read error or an empty mask is fatal. */
  lemma RegisterThenEnd(ks: seq<Service>, readError: bool)
    ensures Register(RegisterLines(ks), readError) ==
      if readError then Failed(StreamError)
      else if ks == [] then Failed(NoServices)
      else Negotiated(set k | k in ks, |ks|)
  {
    var announce := seq(|ks|, i requires 0 <= i < |ks| => Announce(ks[i]));
    RegisterLinesKinds(ks);
    AnnouncementsThen(ks, [], readError);
    assert announce + [] == announce;
  }

  /** Registering a service twice in a row changes nothing but the number of
      lines consumed: `|=` on the mask is idempotent. */
  lemma RepeatedAnnouncement(rs: seq<Registration>, j: nat, readError: bool)
    requires j < |rs| && rs[j].Announce?
    ensures var twice := rs[..j + 1] + rs[j..];
      var h, h' := Negotiate(rs, 0, {}, readError), Negotiate(twice, 0, {}, readError);
      && (h.Failed? ==> h' == h)
      && (h.Negotiated? ==> h'.Negotiated? && h'.services == h.services
                              && h'.consumed == h.consumed + (if j < FirstStop(rs, 0) then 1 else 0))
  {
    var twice := rs[..j + 1] + rs[j..];
    var p := FirstStop(rs, 0);
    HandshakeOutcome(rs, readError);
    HandshakeOutcome(twice, readError);
    if j < p {
      forall i | 0 <= i < p + 1 ensures twice[i].Announce? {
        if i <= j { assert twice[i] == rs[i]; } else { assert twice[i] == rs[i - 1]; }
      }
      if p < |rs| {
        assert twice[p + 1] == rs[p];
      }
      FirstStopAt(twice, 0, p + 1);
      assert twice[..p + 1] == rs[..j + 1] + rs[j..p];
      assert rs[..p] == rs[..j] + rs[j..p];
      assert rs[..j + 1] == rs[..j] + [rs[j]];
      assert rs[j..p] == [rs[j]] + rs[j + 1..p];
      AnnouncedConcat(rs[..j + 1], rs[j..p]);
      AnnouncedConcat(rs[..j], rs[j..p]);
      AnnouncedConcat(rs[..j], [rs[j]]);
      AnnouncedConcat([rs[j]], rs[j + 1..p]);
    } else {
      forall i | 0 <= i < p ensures twice[i].Announce? {
        assert twice[i] == rs[i];
      }
      assert twice[p] == rs[p];
      FirstStopAt(twice, 0, p);
      assert twice[..p] == rs[..p];
    }
  }

  /** The same, on the lines the child writes. */
  lemma RepeatedRegistration(lines: seq<string>, j: nat, readError: bool)
    requires j < |lines| && Kind(lines[j]).Announce?
    ensures var twice := lines[..j + 1] + lines[j..];
      var h, h' := Register(lines, readError), Register(twice, readError);
      && (h.Failed? ==> h' == h)
      && (h.Negotiated? ==> h'.Negotiated? && h'.services == h.services && h'.consumed == h.consumed + (if j < FirstStop(Kinds(lines), 0) then 1 else 0))
  {
    var rs := Kinds(lines);
    RepeatedAnnouncement(rs, j, readError);
    KindsConcat(lines[..j + 1], lines[j..]);
    assert Kinds(lines[..j + 1]) == rs[..j + 1];
    assert Kinds(lines[j..]) == rs[j..];
  }

  /** The handshake as main runs it: the configuration block goes out on
      the same stream the registrations come in on, so a failed write of it
      leaves the error indicator set, and the ferror test after the loop
      sees it on either exit of the loop, `register|ready` included.
      `configWritten` says whether those writes succeeded. */
  function Startup(lines: seq<string>, readError: bool, configWritten: bool): Handshake
  {
    var h := Register(lines, readError);
    if !configWritten && (h.Negotiated? || h.error == NoServices) then Failed(StreamError) else h
  }

  /** After a failed write of the configuration block the handshake never
      succeeds: it fails with the stream error exactly when the loop runs to
      `register|ready` or to the end of input, and otherwise fails on the
      invalid line or unknown name that stopped the loop. A successful write
      leaves registration as it is. */
  lemma ConfigWriteFailure(lines: seq<string>, readError: bool)
    ensures Startup(lines, readError, true) == Register(lines, readError)
    ensures var rs := Kinds(lines);
      var p := FirstStop(rs, 0);
      var h := Startup(lines, readError, false);
      && h.Failed?
      && (h == Failed(StreamError) <==> p == |rs| || rs[p] == Ready)
      && (p < |rs| && rs[p].NotRegistration? ==> h == Failed(InvalidLine(rs[p].line)))
      && (p < |rs| && rs[p].Unknown? ==> h == Failed(UnknownService(rs[p].name)))
  {
    HandshakeOutcome(Kinds(lines), readError);
  }

  /** A child that registers alias and then `ready` after the configuration
      block failed to go out: the bridge dies at the ferror test. */
  lemma ReadyAfterFailedConfig()
    ensures Register([RegisterLine(Alias), READY_LINE], false) == Negotiated({Alias}, 2)
    ensures Startup([RegisterLine(Alias), READY_LINE], false, false) == Failed(StreamError)
  {
    RegisterThenReady([Alias], [], false);
    assert RegisterLines([Alias]) + [READY_LINE] + [] == [RegisterLine(Alias), READY_LINE];
    assert (set k | k in [Alias]) == {Alias};
  }
}
