/** The three gates and the all-or-nothing batch read they guard. */
module ResolveRoute {
  import opened ByteStrings
  import opened Paths
  import opened Envelope
  import opened SecretTables
  import TagTables
  import Rotation
  import HashChain
  import TamperEvidence
  import opened Policy
  import AuditEntries
  import opened AuditLog
  import opened Daemon
  import opened Trail

  /** The stored side of a token; times in seconds. */
  datatype TokenRecord = TokenRecord(
    hash: Bytes, boundUid: Option<U32>, expiresAt: Option<int>, revokedAt: Option<int>)

  datatype AuthFailure = UnknownToken | Expired | Revoked | PeerMismatch(expected: U32, actual: U32)

  datatype Denied = MalformedToken | Authentication(failure: AuthFailure) | NoGrant | ProtocolViolation(detail: Text)

  /** Why a batch failed; a denial names the path it was about, if any. */
  datatype Failure = DeniedBy(denied: Denied, about: Option<SecretPath>) | Store(error: StoreError) | Audit

  /** What the audit log is told of a denial, and the caller never is. */
  function AuditDetail(denied: Denied): Text {
    match denied
    case MalformedToken => Ascii("malformed token")
    case Authentication(failure) => AuthenticationDetail(failure)
    case NoGrant => Ascii("no policy grants this capability") + Ascii(" on this path")
    case ProtocolViolation(detail) => detail
  }

  function AuthenticationDetail(failure: AuthFailure): Text {
    match failure
    case UnknownToken => Ascii("unknown token or wrong secret")
    case Expired => Ascii("token expired")
    case Revoked => Ascii("token revoked")
    case PeerMismatch(_, _) => Ascii("token is bound to a different uid")
  }

  /** Everything a batch is judged against; `caller` is the peer, and the prefix of its token. */
  datatype Session = Session(
    daemon: State,
    presented: Option<Bytes>,
    record: Option<TokenRecord>,
    caller: Caller,
    policies: seq<Document>)

  /** `authenticate`: secret, then revocation, then expiry, then the peer's uid. */
  function Authenticate(record: TokenRecord, hash: Bytes, peerUid: U32, now: int): Option<AuthFailure> {
    if record.hash != hash then Some(UnknownToken)
    else if record.revokedAt.Some? && record.revokedAt.value <= now then Some(Revoked)
    else if record.expiresAt.Some? && record.expiresAt.value <= now then Some(Expired)
    else if record.boundUid.Some? && record.boundUid.value != peerUid then Some(PeerMismatch(record.boundUid.value, peerUid))
    else None
  }

  /** Tags come from the store; a path that does not exist carries none. */
  function StoredTags(d: State, path: SecretPath): set<TagTables.Tag> {
    if path in d.disk.secrets then TagTables.TagsOn(d.disk.tags, d.disk.secrets[path].id) else {}
  }

  function ReadRequest(s: Session, path: SecretPath): Request {
    Request(path, Capability.Read, StoredTags(s.daemon, path))
  }

  /** `check` for the resolve route, with or without a path. */
  function Check(s: Session, path: Option<SecretPath>, now: int): Option<Denied> {
    if s.presented.None? then Some(MalformedToken)
    else if s.record.None? then Some(Authentication(UnknownToken))
    else
      var failure := Authenticate(s.record.value, s.presented.value, s.caller.uid, now);
      if failure.Some? then Some(Authentication(failure.value))
      else
        var granted := match path
          case None => GrantsWithoutPath(s.policies, Capability.Read)
          case Some(p) => Evaluate(s.policies, ReadRequest(s, p)).Allow?;
        if granted then None else Some(NoGrant)
  }

  datatype Target = Target(path: SecretPath, version: Option<Version>)

  datatype Resolved = Resolved(path: SecretPath, version: Version, plaintext: Bytes)

  function SelectorOf(t: Target): Selector {
    match t.version
    case Some(v) => Exact(v)
    case None => Current
  }

  /** One target: authorised on its own path at its own time, then read and opened. */
  function ResolveOne(s: Session, t: Target, now: int): Result<Resolved, Failure> {
    var denied := Check(s, Some(t.path), now);
    if denied.Some? then Err(DeniedBy(denied.value, Some(t.path)))
    else
      match ReadValue(s.daemon, t.path, SelectorOf(t))
      case Err(error) => Err(Store(error))
      case Ok((v, plaintext)) => Ok(Resolved(t.path, v, plaintext))
  }

  /** The targets one after the other; the first failure is the answer. */
  function ResolveEach(s: Session, targets: seq<Target>, clock: seq<int>): Result<seq<Resolved>, Failure>
    requires |clock| == |targets|
  {
    if targets == [] then Ok([])
    else
      var n := |targets| - 1;
      match ResolveEach(s, targets[..n], clock[..n])
      case Err(failure) => Err(failure)
      case Ok(sofar) =>
        match ResolveOne(s, targets[n], clock[n])
        case Err(failure) => Err(failure)
        case Ok(item) => Ok(sofar + [item])
  }

  /** The pathless gate at `start`, then every target. */
  function Gather(s: Session, targets: seq<Target>, start: int, clock: seq<int>): Result<seq<Resolved>, Failure>
    requires |clock| == |targets|
  {
    var denied := Check(s, None, start);
    if denied.Some? then Err(DeniedBy(denied.value, None)) else ResolveEach(s, targets, clock)
  }

  /** A denial is recorded as best it can be; a success only stands once its own entry is appended. */
  function Close(c: Crypto, s: Session, gathered: Result<seq<Resolved>, Failure>)
    : (Result<seq<Resolved>, Failure>, State)
  {
    var d := s.daemon;
    match gathered
    case Err(DeniedBy(denied, about)) =>
      (gathered, Logged(c, d, RefusalEntry(s.caller, about, AuditDetail(denied))))
    case Err(_) => (gathered, d)
    case Ok(_) =>
      match Append(c.mac, d.keys.auditKey, d.disk.log, RecordEntry(s.caller, AuditEntries.Resolve, None, None))
      case Ok(log) => (gathered, d.(disk := d.disk.(log := log)))
      case Err(_) => (Err(Audit), d)
  }

  /** `resolve_secrets`: the answer, and the daemon after it. */
  function ResolveSecrets(c: Crypto, s: Session, targets: seq<Target>, start: int, clock: seq<int>)
    : (Result<seq<Resolved>, Failure>, State)
    requires |clock| == |targets|
  {
    Close(c, s, Gather(s, targets, start, clock))
  }

  method ResolveBatch(c: Crypto, s: Session, targets: seq<Target>, start: int, clock: seq<int>)
    returns (r: Result<seq<Resolved>, Failure>, d: State)
    requires |clock| == |targets|
    ensures (r, d) == ResolveSecrets(c, s, targets, start, clock)
  {
    hide Append, RecordEntry, RefusalEntry, Gather, Logged;
    d := s.daemon;
    r := GatherBatch(s, targets, start, clock);
    match r {
      case Err(DeniedBy(denied, about)) => d := Logged(c, d, RefusalEntry(s.caller, about, AuditDetail(denied)));
      case Err(_) =>
      case Ok(_) =>
        var log := Append(c.mac, d.keys.auditKey, d.disk.log, RecordEntry(s.caller, AuditEntries.Resolve, None, None));
        if log.Err? {
          return Err(Audit), d;
        }
        d := d.(disk := d.disk.(log := log.value));
    }
  }

  method GatherBatch(s: Session, targets: seq<Target>, start: int, clock: seq<int>)
    returns (r: Result<seq<Resolved>, Failure>)
    requires |clock| == |targets|
    ensures r == Gather(s, targets, start, clock)
  {
    hide Check, ReadValue;
    var denied := Check(s, None, start);
    if denied.Some? {
      return Err(DeniedBy(denied.value, None));
    }
    var resolved: seq<Resolved> := [];
    var i := 0;
    assert targets[..0] == [] && clock[..0] == [];
    while i < |targets|
      invariant i <= |targets|
      invariant ResolveEach(s, targets[..i], clock[..i]) == Ok(resolved)
    {
      assert targets[..i + 1][..i] == targets[..i] && clock[..i + 1][..i] == clock[..i];
      denied := Check(s, Some(targets[i].path), clock[i]);
      if denied.Some? {
        FailureSticks(s, targets, clock, i + 1);
        return Err(DeniedBy(denied.value, Some(targets[i].path)));
      }
      var value := ReadValue(s.daemon, targets[i].path, SelectorOf(targets[i]));
      if value.Err? {
        FailureSticks(s, targets, clock, i + 1);
        return Err(Store(value.error));
      }
      resolved := resolved + [Resolved(targets[i].path, value.value.0, value.value.1)];
      i := i + 1;
    }
    assert targets[..i] == targets && clock[..i] == clock;
    return Ok(resolved);
  }

  lemma {:induction false} FailureSticks(s: Session, targets: seq<Target>, clock: seq<int>, k: nat)
    requires |clock| == |targets| && k <= |targets|
    requires ResolveEach(s, targets[..k], clock[..k]).Err?
    ensures ResolveEach(s, targets, clock) == ResolveEach(s, targets[..k], clock[..k])
  {
    hide ResolveOne;
    if k == |targets| {
      assert targets[..k] == targets && clock[..k] == clock;
    } else {
      var n := |targets| - 1;
      assert targets[..n][..k] == targets[..k] && clock[..n][..k] == clock[..k];
      FailureSticks(s, targets[..n], clock[..n], k);
    }
  }

  // ----- what a batch means -----

  /** The token presented is the one on record, neither revoked nor expired yet, and from the uid it is bound to. */
  predicate ValidAt(s: Session, now: int) {
    && s.presented.Some? && s.record.Some?
    && s.record.value.hash == s.presented.value
    && (s.record.value.revokedAt.Some? ==> now < s.record.value.revokedAt.value)
    && (s.record.value.expiresAt.Some? ==> now < s.record.value.expiresAt.value)
    && (s.record.value.boundUid.Some? ==> s.caller.uid == s.record.value.boundUid.value)
  }

  /** Some policy grants read on the path with the tags the store holds for it, and none prohibits it. */
  predicate MayRead(s: Session, path: SecretPath) {
    var disk := s.daemon.disk;
    var tags := if path in disk.secrets then TagTables.TagsOn(disk.tags, disk.secrets[path].id) else {};
    var r := Request(path, Capability.Read, tags);
    !Prohibited(s.policies, r) && Granted(s.policies, r)
  }

  /** The version a target asks for: the one it pins, or else the one that is current. */
  predicate AsksFor(d: State, t: Target, v: Version) {
    t.path in d.disk.secrets && (if t.version.Some? then t.version == Some(v) else d.disk.secrets[t.path].current == Some(v))
  }

  ghost predicate Obtainable(d: State, t: Target) {
    exists v :: AsksFor(d, t, v) && ReadValue(d, t.path, Exact(v)).Ok?
  }

  /** An item holds the very version its target asks for, with the value that version reads as. */
  predicate Answers(d: State, t: Target, item: Resolved) {
    && item.path == t.path
    && AsksFor(d, t, item.version)
    && ReadValue(d, t.path, Exact(item.version)) == Ok((item.version, item.plaintext))
  }

  lemma TargetReads(d: State, t: Target)
    ensures var r := ReadValue(d, t.path, SelectorOf(t));
      && (r.Ok? <==> Obtainable(d, t))
      && (r.Ok? ==> Answers(d, t, Resolved(t.path, r.value.0, r.value.1)))
  {
    hide Open, BuildSealed, ValidPath;
    var secrets := d.disk.secrets;
    if t.path in secrets && (t.version.Some? || secrets[t.path].current.Some?) {
      var v := if t.version.Some? then t.version.value else secrets[t.path].current.value;
      assert AsksFor(d, t, v);
      assert ReadValue(d, t.path, SelectorOf(t)) == ReadValue(d, t.path, Exact(v));
    }
  }

  predicate Ascending(times: seq<int>) {
    forall i, j :: 0 <= i < j < |times| ==> times[i] <= times[j]
  }

  /** A token valid now was valid before: revocation and expiry only ever set in. */
  lemma ValidEarlier(s: Session, earlier: int, later: int)
    requires earlier <= later && ValidAt(s, later)
    ensures ValidAt(s, earlier)
  {
  }

  lemma CheckMeans(s: Session, path: SecretPath, now: int)
    ensures Check(s, Some(path), now).None? <==> ValidAt(s, now) && MayRead(s, path)
  {
    DecisionMeans(s.policies, ReadRequest(s, path));
    hide Evaluate, Prohibited, Granted;
  }

  lemma {:induction false} ResolveEachMeans(s: Session, targets: seq<Target>, clock: seq<int>)
    requires |clock| == |targets|
    ensures var r := ResolveEach(s, targets, clock);
      && (r.Ok? <==> forall i :: 0 <= i < |targets| ==> ResolveOne(s, targets[i], clock[i]).Ok?)
      && (r.Ok? ==>
            && |r.value| == |targets|
            && forall i :: 0 <= i < |targets| ==> ResolveOne(s, targets[i], clock[i]) == Ok(r.value[i]))
  {
    hide ResolveOne;
    if targets != [] {
      var n := |targets| - 1;
      ResolveEachMeans(s, targets[..n], clock[..n]);
      assert forall i :: 0 <= i < n ==> targets[..n][i] == targets[i] && clock[..n][i] == clock[i];
    }
  }

  lemma GatheredMeans(s: Session, targets: seq<Target>, start: int, clock: seq<int>)
    requires |clock| == |targets| > 0 && Ascending([start] + clock)
    ensures var r := Gather(s, targets, start, clock);
      && (r.Ok? <==>
            && ValidAt(s, clock[|clock| - 1])
            && forall i :: 0 <= i < |targets| ==>
                 MayRead(s, targets[i].path) && ReadValue(s.daemon, targets[i].path, SelectorOf(targets[i])).Ok?)
      && (r.Ok? ==>
            && |r.value| == |targets|
            && forall i :: 0 <= i < |targets| ==>
                 && r.value[i].path == targets[i].path
                 && ReadValue(s.daemon, targets[i].path, SelectorOf(targets[i]))
                    == Ok((r.value[i].version, r.value[i].plaintext)))
  {
    hide ValidAt, MayRead, Check, ReadValue;
    var n := |targets|;
    assert [start] + clock == [start] + clock[..n - 1] + [clock[n - 1]];
    forall i | 0 <= i < n ensures clock[i] <= clock[n - 1] && start <= clock[n - 1] {
      assert ([start] + clock)[i + 1] == clock[i] && ([start] + clock)[n] == clock[n - 1] && ([start] + clock)[0] == start;
    }
    ResolveEachMeans(s, targets, clock);
    forall i | 0 <= i < n
      ensures ResolveOne(s, targets[i], clock[i]).Ok? <==>
        && ValidAt(s, clock[i]) && MayRead(s, targets[i].path)
        && ReadValue(s.daemon, targets[i].path, SelectorOf(targets[i])).Ok?
    {
      CheckMeans(s, targets[i].path, clock[i]);
    }
    if ValidAt(s, clock[n - 1]) {
      forall i | 0 <= i < n ensures ValidAt(s, clock[i]) {
        ValidEarlier(s, clock[i], clock[n - 1]);
      }
      if MayRead(s, targets[0].path) {
        ValidEarlier(s, start, clock[n - 1]);
        PathlessGateAdmitsReader(s, targets[0].path, start);
      }
    }
  }

  /**
   * A non-empty batch succeeds exactly when the token is still valid at the last read, every path may be read on
   * its own, every value is readable and the closing entry can be appended; the results then come one for each
   * target, in order.
   */
  lemma BatchMeans(c: Crypto, s: Session, targets: seq<Target>, start: int, clock: seq<int>)
    requires |clock| == |targets| > 0 && Ascending([start] + clock)
    ensures var r := ResolveSecrets(c, s, targets, start, clock).0;
      && (r.Ok? <==>
            && ValidAt(s, clock[|clock| - 1])
            && (forall i :: 0 <= i < |targets| ==> MayRead(s, targets[i].path) && Obtainable(s.daemon, targets[i]))
            && CanAppend(s.daemon.disk.log))
      && (r.Ok? ==>
            && |r.value| == |targets|
            && forall i :: 0 <= i < |targets| ==> Answers(s.daemon, targets[i], r.value[i]))
  {
    hide Gather, ValidAt, MayRead, ReadValue, Append, CanAppend, Logged, Ascending, Obtainable, Answers;
    GatheredMeans(s, targets, start, clock);
    forall i | 0 <= i < |targets|
      ensures var r := ReadValue(s.daemon, targets[i].path, SelectorOf(targets[i]));
        && (r.Ok? <==> Obtainable(s.daemon, targets[i]))
        && (r.Ok? ==> Answers(s.daemon, targets[i], Resolved(targets[i].path, r.value.0, r.value.1)))
    {
      TargetReads(s.daemon, targets[i]);
    }
    AppendSucceedsExactly(c.mac, s.daemon.keys.auditKey, s.daemon.disk.log,
                          RecordEntry(s.caller, AuditEntries.Resolve, None, None));
  }

  /**
   * A batch refused for want of a grant names the first target that may not be read: the token was valid for it,
   * and everything asked for before it was granted and there.
   */
  lemma RefusalNamesTheFirst(
    c: Crypto, s: Session, targets: seq<Target>, start: int, clock: seq<int>, path: SecretPath)
    requires |clock| == |targets|
    requires ResolveSecrets(c, s, targets, start, clock).0 == Err(DeniedBy(NoGrant, Some(path)))
    ensures exists i ::
      && 0 <= i < |targets| && targets[i].path == path
      && ValidAt(s, clock[i]) && !MayRead(s, path)
      && forall j :: 0 <= j < i ==> MayRead(s, targets[j].path) && Obtainable(s.daemon, targets[j])
  {
    hide Check, ReadValue, ValidAt, MayRead, Obtainable, Append, Logged;
    FirstFailure(s, targets, clock);
    var r := ResolveEach(s, targets, clock);
    var i :| 0 <= i < |targets| && ResolveOne(s, targets[i], clock[i]) == Err(r.error)
      && forall j :: 0 <= j < i ==> ResolveOne(s, targets[j], clock[j]).Ok?;
    DenialMeans(s, path, clock[i]);
    forall j | 0 <= j < i ensures MayRead(s, targets[j].path) && Obtainable(s.daemon, targets[j]) {
      CheckMeans(s, targets[j].path, clock[j]);
      TargetReads(s.daemon, targets[j]);
    }
  }

  /** Why a check on a path fails: a wrong secret first, then revocation, expiry, the peer, and the policies last. */
  lemma DenialMeans(s: Session, path: SecretPath, now: int)
    ensures var denied := Check(s, Some(path), now);
      && (denied == Some(MalformedToken) <==> s.presented.None?)
      && (denied == Some(NoGrant) <==> ValidAt(s, now) && !MayRead(s, path))
      && (s.presented.Some? ==>
            && (denied == Some(Authentication(UnknownToken)) <==>
                  s.record.None? || s.record.value.hash != s.presented.value))
    ensures s.presented.Some? && s.record.Some? && s.record.value.hash == s.presented.value ==>
      var (denied, token) := (Check(s, Some(path), now), s.record.value);
      var revoked := token.revokedAt.Some? && token.revokedAt.value <= now;
      var expired := token.expiresAt.Some? && token.expiresAt.value <= now;
      && (denied == Some(Authentication(Revoked)) <==> revoked)
      && (denied == Some(Authentication(Expired)) <==> !revoked && expired)
      && (forall uid :: denied == Some(Authentication(PeerMismatch(uid, s.caller.uid))) <==>
            !revoked && !expired && token.boundUid == Some(uid) && uid != s.caller.uid)
  {
    DecisionMeans(s.policies, ReadRequest(s, path));
    hide Evaluate, Prohibited, Granted;
  }

  /** The pathless gate never turns away a valid token that may read some path. */
  lemma PathlessGateAdmitsReader(s: Session, path: SecretPath, now: int)
    requires ValidAt(s, now) && MayRead(s, path)
    ensures Check(s, None, now).None?
  {
    DecisionMeans(s.policies, ReadRequest(s, path));
    PathlessGateAdmits(s.policies, ReadRequest(s, path));
    hide Evaluate, Prohibited, Granted;
  }

  /** An empty batch still needs a valid token whose policies grant read on some path. */
  lemma EmptyBatchMeans(c: Crypto, s: Session, start: int)
    ensures ResolveSecrets(c, s, [], start, []).0.Ok? <==>
      && ValidAt(s, start)
      && (exists p, rule :: p in s.policies && rule in p.rules && Capability.Read in rule.capabilities)
      && CanAppend(s.daemon.disk.log)
  {
    hide Append, CanAppend, Logged, ReadValue;
    AppendSucceedsExactly(c.mac, s.daemon.keys.auditKey, s.daemon.disk.log,
                          RecordEntry(s.caller, AuditEntries.Resolve, None, None));
    forall rule: Rule { AllRulesMeans(s.policies, rule); }
    if p, rule :| p in s.policies && rule in p.rules && Capability.Read in rule.capabilities {
      assert rule in AllRules(s.policies);
    }
  }

  function Selectors(targets: seq<Target>): (r: seq<(SecretPath, Selector)>)
    ensures |r| == |targets|
    ensures forall i :: 0 <= i < |r| ==> r[i] == (targets[i].path, SelectorOf(targets[i]))
  {
    seq(|targets|, i requires 0 <= i < |targets| => (targets[i].path, SelectorOf(targets[i])))
  }

  /** A batch that was gathered reads every target; one that failed in the store has one that does not read. */
  lemma GatheredReads(s: Session, targets: seq<Target>, start: int, clock: seq<int>)
    requires |clock| == |targets|
    ensures var r := Gather(s, targets, start, clock);
      && (r.Ok? ==> AllReadable(s.daemon, Selectors(targets)))
      && (r.Err? && r.error.Store? ==> !AllReadable(s.daemon, Selectors(targets)))
      && (r.Err? ==> !r.error.Audit?)
  {
    hide Check, ReadValue;
    ResolveEachMeans(s, targets, clock);
    FirstFailure(s, targets, clock);
    var each := ResolveEach(s, targets, clock);
    if each.Err? && each.error.Store? {
      var i :| 0 <= i < |targets| && ResolveOne(s, targets[i], clock[i]) == Err(each.error);
      assert ReadValue(s.daemon, Selectors(targets)[i].0, Selectors(targets)[i].1).Err?;
    }
  }

  /** What the batch was to the daemon: a refusal, or a batch read of these targets. */
  function BatchEvent(s: Session, targets: seq<Target>, r: Result<seq<Resolved>, Failure>): Event {
    if r.Err? && r.error.DeniedBy? then Refused(s.caller, r.error.about, AuditDetail(r.error.denied))
    else Daemon.ResolveBatch(s.caller, Selectors(targets))
  }

  /** Every batch, however it ends, is one step of the daemon. */
  lemma BatchIsAStep(
    c: Crypto, s: Session, written: Rotation.Written, targets: seq<Target>, start: int, clock: seq<int>)
    requires |clock| == |targets|
    ensures var (r, d) := ResolveSecrets(c, s, targets, start, clock);
      World(d, written) == Step(c, World(s.daemon, written), BatchEvent(s, targets, r))
  {
    hide Append, Gather, AllReadable, RecordEntry, RefusalEntry;
    GatheredReads(s, targets, start, clock);
    var gathered := Gather(s, targets, start, clock);
    if gathered.Err? && gathered.error.DeniedBy? {
      assert ResolveSecrets(c, s, targets, start, clock).0 == gathered;
    }
  }

  /**
   * In a coherent daemon a granted batch yields what was written, or is refused for a plain not-found, unless row
   * numbers of the audit log have run out; and the daemon is coherent after it.
   */
  lemma BatchIsFaithful(c: Crypto, w: World, s: Session, targets: seq<Target>, start: int, clock: seq<int>)
    requires Coherent(c, w) && s.daemon == w.daemon
    requires |clock| == |targets|
    ensures Coherent(c, w.(daemon := ResolveSecrets(c, s, targets, start, clock).1))
    ensures match ResolveSecrets(c, s, targets, start, clock).0
      case Ok(items) =>
        |items| == |targets| && forall i :: 0 <= i < |items| ==>
          && items[i].path == targets[i].path && AsksFor(w.daemon, targets[i], items[i].version)
          && (items[i].path, items[i].version) in w.written
          && items[i].plaintext == w.written[(items[i].path, items[i].version)]
      case Err(DeniedBy(_, _)) => true
      case Err(Store(error)) => error == NotFound
      case Err(Audit) => |w.daemon.disk.log.rows| >= I64_MAX
  {
    hide Coherent, Gather, Step, Logged, RecordEntry;
    GatheredIsFaithful(c, w, s, targets, start, clock);
    GatheredReads(s, targets, start, clock);
    BatchIsAStep(c, s, w.written, targets, start, clock);
    var (r, d) := ResolveSecrets(c, s, targets, start, clock);
    StepSound(c, w, BatchEvent(s, targets, r));
    CoherentCanAppend(c, w);
    AppendSucceedsExactly(c.mac, s.daemon.keys.auditKey, s.daemon.disk.log,
                          RecordEntry(s.caller, AuditEntries.Resolve, None, None));
    hide Append, CanAppend;
  }

  lemma CoherentCanAppend(c: Crypto, w: World)
    requires Coherent(c, w)
    ensures CanAppend(w.daemon.disk.log) <==> |w.daemon.disk.log.rows| < I64_MAX
  {
    hide KeysCoherent, SecretsCoherent, TagsCoherent, LinkOf, HashChain.VerifyLinks;
    var (log, k) := (w.daemon.disk.log, w.daemon.keys.auditKey);
    if log.rows != [] {
      TamperEvidence.ValidMeans(c.mac, k, Links(log.rows), log.anchor);
      ChainedRow(c.mac, k, log.rows, |log.rows| - 1);
    }
  }

  lemma GatheredIsFaithful(c: Crypto, w: World, s: Session, targets: seq<Target>, start: int, clock: seq<int>)
    requires Coherent(c, w) && s.daemon == w.daemon
    requires |clock| == |targets|
    ensures match Gather(s, targets, start, clock)
      case Ok(items) =>
        |items| == |targets| && forall i :: 0 <= i < |items| ==>
          && items[i].path == targets[i].path && AsksFor(w.daemon, targets[i], items[i].version)
          && (items[i].path, items[i].version) in w.written
          && items[i].plaintext == w.written[(items[i].path, items[i].version)]
      case Err(Store(error)) => error == NotFound
      case Err(_) => true
  {
    hide Coherent, Check, ReadValue;
    ResolveEachMeans(s, targets, clock);
    forall i | 0 <= i < |targets|
      ensures match ResolveOne(s, targets[i], clock[i])
        case Ok(item) =>
          && item.path == targets[i].path && AsksFor(w.daemon, targets[i], item.version)
          && (item.path, item.version) in w.written
          && item.plaintext == w.written[(item.path, item.version)]
        case Err(Store(error)) => error == NotFound
        case Err(_) => true
    {
      ReadsAreFaithful(c, w, targets[i].path, SelectorOf(targets[i]));
      TargetReads(w.daemon, targets[i]);
    }
    FirstFailure(s, targets, clock);
  }

  lemma {:induction false} FirstFailure(s: Session, targets: seq<Target>, clock: seq<int>)
    requires |clock| == |targets|
    ensures var r := ResolveEach(s, targets, clock);
      r.Err? ==> exists i :: 0 <= i < |targets| && ResolveOne(s, targets[i], clock[i]) == Err(r.error)
                             && forall j :: 0 <= j < i ==> ResolveOne(s, targets[j], clock[j]).Ok?
  {
    hide ResolveOne;
    if targets != [] {
      var n := |targets| - 1;
      FirstFailure(s, targets[..n], clock[..n]);
      ResolveEachMeans(s, targets[..n], clock[..n]);
      var r := ResolveEach(s, targets[..n], clock[..n]);
      assert forall j :: 0 <= j < n ==> targets[..n][j] == targets[j] && clock[..n][j] == clock[j];
      if r.Err? {
        var i :| 0 <= i < n && ResolveOne(s, targets[..n][i], clock[..n][i]) == Err(r.error)
          && forall j :: 0 <= j < i ==> ResolveOne(s, targets[..n][j], clock[..n][j]).Ok?;
        assert ResolveOne(s, targets[i], clock[i]) == Err(r.error);
      } else {
        assert ResolveEach(s, targets, clock).Err? ==>
          ResolveOne(s, targets[n], clock[n]) == Err(ResolveEach(s, targets, clock).error);
      }
    }
  }
}
