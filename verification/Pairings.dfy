/**
 * The pairing flow of `pairing.ts` and the enrollments it ends in (`enrollment.ts`). Each database
 * transaction is one step over the two tables; the clock of each step is its own and need not advance.
 */
module Pairings {
  import opened Unicode
  import opened UserCodes
  import opened Wrappers

  const PAIRING_TTL_MS: int := 600000
  const HOUR_MS: int := 3600000
  const PREFIX_LEN: nat := 12
  const MIN_DEVICE_CODE: nat := 16

  type Org = nat
  type HostId = nat

  /** sha256, taken to be injective. */
  datatype Hash = Sha(text: JsString)

  datatype Approval = Approval(org: Org, at: int)

  datatype Pairing = Pairing(
    code: Hash, device: Hash, expiresAt: int, approved: Option<Approval>, collectedAt: Option<int>)

  datatype Use = Use(at: int, host: HostId)

  datatype Enrollment = Enrollment(
    org: Org, prefix: JsString, token: Hash, expiresAt: int, revokedAt: Option<int>, used: Option<Use>)

  /** What happened, in commit order. No step reads it. */
  datatype Fact =
    | Approved(pairing: nat, org: Org)
    | Minted(pairing: nat, enrollment: nat, org: Org)
    | Redeemed(enrollment: nat, host: HostId)

  /** The tables by primary key; `next` is the source of fresh keys. */
  datatype Db = Db(next: nat, pairings: map<nat, Pairing>, enrollments: map<nat, Enrollment>, facts: seq<Fact>)

  const EMPTY := Db(0, map[], map[], [])

  // ---------------------------------------------------------- finding rows

  /** The row a unique column selects. */
  ghost function ByCode(db: Db, code: Hash): (r: Option<nat>)
    ensures r.Some? ==> r.value in db.pairings && db.pairings[r.value].code == code
    ensures r.None? ==> forall p <- db.pairings :: db.pairings[p].code != code
  {
    if exists p <- db.pairings :: db.pairings[p].code == code
    then var p :| p in db.pairings && db.pairings[p].code == code; Some(p)
    else None
  }

  ghost function ByDevice(db: Db, device: Hash): (r: Option<nat>)
    ensures r.Some? ==> r.value in db.pairings && db.pairings[r.value].device == device
    ensures r.None? ==> forall p <- db.pairings :: db.pairings[p].device != device
  {
    if exists p <- db.pairings :: db.pairings[p].device == device
    then var p :| p in db.pairings && db.pairings[p].device == device; Some(p)
    else None
  }

  ghost function ByPrefix(db: Db, prefix: JsString): (r: Option<nat>)
    ensures r.Some? ==> r.value in db.enrollments && db.enrollments[r.value].prefix == prefix
    ensures r.None? ==> forall e <- db.enrollments :: db.enrollments[e].prefix != prefix
  {
    if exists e <- db.enrollments :: db.enrollments[e].prefix == prefix
    then var e :| e in db.enrollments && db.enrollments[e].prefix == prefix; Some(e)
    else None
  }

  // ---------------------------------------------------------------- starting

  function Sweep(db: Db, now: int): Db {
    db.(pairings := map p | p in db.pairings
                      && !(db.pairings[p].expiresAt < now && db.pairings[p].collectedAt.None?) :: db.pairings[p])
  }

  /** A transaction block: a statement that fails leaves it refusing every later one. */
  datatype Tx = Open(db: Db) | Failed

  datatype Insert = Inserted | UniqueViolation | InFailedTransaction

  ghost function InsertPairing(tx: Tx, code: Hash, device: Hash, now: int): (Tx, Insert) {
    match tx
    case Failed => (Failed, InFailedTransaction)
    case Open(db) =>
      if ByCode(db, code).Some? || ByDevice(db, device).Some? then (Failed, UniqueViolation)
      else
        var row := Pairing(code, device, now + PAIRING_TTL_MS, None, None);
        (Open(db.(next := db.next + 1, pairings := db.pairings[db.next := row])), Inserted)
  }

  /** The retry loop: only a unique violation tries again. None when it throws. */
  ghost function Attempts(tx: Tx, codes: seq<JsString>, device: Hash, now: int): Option<(Db, JsString)>
    decreases |codes|
  {
    if codes == [] then None
    else
      var (tx', result) := InsertPairing(tx, Sha(codes[0]), device, now);
      match result
      case Inserted => Some((tx'.db, codes[0]))
      case UniqueViolation => Attempts(tx', codes[1..], device, now)
      case InFailedTransaction => None
  }

  /** `startPairing` with the codes its five attempts would draw. The user code it answers, or None. */
  ghost function Start(db: Db, device: JsString, codes: seq<JsString>, now: int): (Db, Option<JsString>) {
    var r := Attempts(Open(Sweep(db, now)), codes, Sha(device), now);
    if r.None? then (db, None) else (r.value.0, Some(Format(r.value.1)))
  }

  // ---------------------------------------------------------------- the admin

  datatype Lookup = Found(approved: bool) | UnknownCode | AlreadyCollected | Expired

  /** `lookupPairing` of an already normalized code. */
  ghost function LookUp(db: Db, code: JsString, now: int): Lookup {
    if !IsCodeShaped(code) || ByCode(db, Sha(code)).None? then UnknownCode
    else
      var row := db.pairings[ByCode(db, Sha(code)).value];
      if row.collectedAt.Some? then AlreadyCollected
      else if row.expiresAt <= now then Expired
      else Found(row.approved.Some?)
  }

  /** The UPDATE of `approvePairing`, and whether it found its row. */
  ghost function Approve(db: Db, code: JsString, org: Org, now: int): (Db, bool) {
    var p := ByCode(db, Sha(code));
    if !IsCodeShaped(code) || p.None? then (db, false)
    else
      var row := db.pairings[p.value];
      if row.approved.None? && row.collectedAt.None? && row.expiresAt > now then
        (db.(pairings := db.pairings[p.value := row.(approved := Some(Approval(org, now)))],
             facts := db.facts + [Approved(p.value, org)]), true)
      else (db, false)
  }

  // ---------------------------------------------------------------- the agent

  datatype Collect =
    | Pending
    | Token(plaintext: JsString, org: Org)
    | UnknownDevice
    | GoneStale
    | Spent
    | Thrown

  function PrefixOf(token: JsString): JsString {
    if |token| < PREFIX_LEN then token else token[..PREFIX_LEN]
  }

  /** `collectPairing`; `token` is the plaintext it would mint. A taken prefix throws and rolls back. */
  ghost function CollectPairing(db: Db, device: JsString, token: JsString, now: int): (Db, Collect) {
    var p := ByDevice(db, Sha(device));
    if |device| < MIN_DEVICE_CODE || p.None? then (db, UnknownDevice)
    else
      var row := db.pairings[p.value];
      if row.collectedAt.Some? then (db, Spent)
      else if row.approved.None? && row.expiresAt <= now then (db, GoneStale)
      else if row.approved.None? then (db, Pending)
      else if ByPrefix(db, PrefixOf(token)).Some? then (db, Thrown)
      else
        var org := row.approved.value.org;
        var minted := Enrollment(org, PrefixOf(token), Sha(token), now + HOUR_MS, None, None);
        (Db(db.next + 1,
            db.pairings[p.value := row.(collectedAt := Some(now))],
            db.enrollments[db.next := minted],
            db.facts + [Minted(p.value, db.next, org)]), Token(token, org))
  }

  // -------------------------------------------------------------- enrollments

  /** `createEnrollment`, the other way to a token. */
  ghost function Create(db: Db, org: Org, token: JsString, ttlHours: int, now: int): (Db, bool) {
    if ByPrefix(db, PrefixOf(token)).Some? then (db, false)
    else
      var e := Enrollment(org, PrefixOf(token), Sha(token), now + ttlHours * HOUR_MS, None, None);
      (db.(next := db.next + 1, enrollments := db.enrollments[db.next := e]), true)
  }

  ghost function Revoke(db: Db, org: Org, prefix: JsString, now: int): (Db, bool) {
    var e := ByPrefix(db, prefix);
    if e.None? || db.enrollments[e.value].org != org || db.enrollments[e.value].revokedAt.Some? then (db, false)
    else (db.(enrollments := db.enrollments[e.value := db.enrollments[e.value].(revokedAt := Some(now))]), true)
  }

  datatype Redeem = Accepted(enrollment: nat, org: Org) | NoSuchToken | BadToken | Revoked | AlreadyUsed | TooLate

  ghost function RedeemEnrollment(db: Db, presented: JsString, now: int): Redeem {
    if !StartsWith(presented, [0x6d, 0x61, 0x65, 0x5f]) || |presented| < PREFIX_LEN then NoSuchToken
    else
      var e := ByPrefix(db, presented[..PREFIX_LEN]);
      if e.None? then NoSuchToken
      else
        var row := db.enrollments[e.value];
        if Sha(presented) != row.token then BadToken
        else if row.revokedAt.Some? then Revoked
        else if row.used.Some? then AlreadyUsed
        else if row.expiresAt <= now then TooLate
        else Accepted(e.value, row.org)
  }

  /** Registration: the token is checked and marked used in one transaction. */
  ghost function Register(db: Db, presented: JsString, host: HostId, now: int): (Db, Redeem) {
    var r := RedeemEnrollment(db, presented, now);
    if !r.Accepted? then (db, r)
    else
      (db.(enrollments := db.enrollments[r.enrollment := db.enrollments[r.enrollment].(used := Some(Use(now, host)))],
           facts := db.facts + [Redeemed(r.enrollment, host)]), r)
  }

  // --------------------------------------------------------------------- runs

  datatype Event =
    | StartEvent(device: JsString, codes: seq<JsString>, now: int)
    | ApproveEvent(code: JsString, org: Org, now: int)
    | CollectEvent(device: JsString, token: JsString, now: int)
    | CreateEvent(org: Org, token: JsString, ttlHours: int, now: int)
    | RevokeEvent(org: Org, prefix: JsString, now: int)
    | RegisterEvent(presented: JsString, host: HostId, now: int)

  ghost function Step(db: Db, e: Event): Db {
    match e
    case StartEvent(device, codes, now) => Start(db, device, codes, now).0
    case ApproveEvent(code, org, now) => Approve(db, code, org, now).0
    case CollectEvent(device, token, now) => CollectPairing(db, device, token, now).0
    case CreateEvent(org, token, ttlHours, now) => Create(db, org, token, ttlHours, now).0
    case RevokeEvent(org, prefix, now) => Revoke(db, org, prefix, now).0
    case RegisterEvent(presented, host, now) => Register(db, presented, host, now).0
  }

  ghost function Run(db: Db, events: seq<Event>): Db
    decreases |events|
  {
    if events == [] then db else Run(Step(db, events[0]), events[1..])
  }

  // ---------------------------------------------------------------- invariant

  /** How often something happened. */
  function Count(facts: seq<Fact>, counts: Fact -> bool): nat {
    if facts == [] then 0
    else Count(facts[..|facts| - 1], counts) + (if counts(facts[|facts| - 1]) then 1 else 0)
  }

  function IsApproval(p: nat): Fact -> bool {
    (f: Fact) => f.Approved? && f.pairing == p
  }

  function IsMint(p: nat): Fact -> bool {
    (f: Fact) => f.Minted? && f.pairing == p
  }

  function IsUse(e: nat): Fact -> bool {
    (f: Fact) => f.Redeemed? && f.enrollment == e
  }

  lemma CountOneMore(facts: seq<Fact>, f: Fact, counts: Fact -> bool)
    ensures Count(facts + [f], counts) == Count(facts, counts) + (if counts(f) then 1 else 0)
  {
    assert (facts + [f])[..|facts|] == facts;
  }

  /** Keys are below `next`, and the three unique columns are unique. */
  ghost predicate Keyed(db: Db) {
    && (forall p <- db.pairings :: p < db.next)
    && (forall e <- db.enrollments :: e < db.next)
    && (forall p <- db.pairings, q <- db.pairings :: p != q ==>
          db.pairings[p].code != db.pairings[q].code && db.pairings[p].device != db.pairings[q].device)
    && (forall d <- db.enrollments, e <- db.enrollments :: d != e ==>
          db.enrollments[d].prefix != db.enrollments[e].prefix)
  }

  /** The rows tell how often each thing happened: a pairing that is gone was never collected. */
  ghost predicate Counted(db: Db) {
    && (forall p: nat :: Count(db.facts, IsMint(p))
                         == if p in db.pairings && db.pairings[p].collectedAt.Some? then 1 else 0)
    && (forall p: nat :: Count(db.facts, IsApproval(p)) <= if p < db.next then 1 else 0)
    && (forall p <- db.pairings :: Count(db.facts, IsApproval(p)) == if db.pairings[p].approved.Some? then 1 else 0)
    && (forall p <- db.pairings :: db.pairings[p].collectedAt.Some? ==> db.pairings[p].approved.Some?)
  }

  /** So do the enrollments. */
  ghost predicate UsesCounted(db: Db) {
    forall e: nat :: Count(db.facts, IsUse(e)) == if e in db.enrollments && db.enrollments[e].used.Some? then 1 else 0
  }

  /** Every approval fact agrees with its row; every mint follows its approval and named its org. */
  ghost predicate Told(db: Db) {
    && (forall p <- db.pairings :: db.pairings[p].approved.Some? ==>
          Approved(p, db.pairings[p].approved.value.org) in db.facts)
    && (forall i :: 0 <= i < |db.facts| && db.facts[i].Minted? ==>
          && Approved(db.facts[i].pairing, db.facts[i].org) in db.facts[..i]
          && db.facts[i].enrollment in db.enrollments
          && db.enrollments[db.facts[i].enrollment].org == db.facts[i].org)
  }

  ghost predicate Inv(db: Db) {
    Keyed(db) && Counted(db) && UsesCounted(db) && Told(db)
  }

  lemma CountsAfter(facts: seq<Fact>, f: Fact)
    ensures forall p: nat ::
              Count(facts + [f], IsMint(p)) == Count(facts, IsMint(p)) + if f.Minted? && f.pairing == p then 1 else 0
    ensures forall p: nat ::
              Count(facts + [f], IsApproval(p)) == Count(facts, IsApproval(p)) + if f.Approved? && f.pairing == p then 1 else 0
    ensures forall e: nat ::
              Count(facts + [f], IsUse(e)) == Count(facts, IsUse(e)) + if f.Redeemed? && f.enrollment == e then 1 else 0
  {
    forall p: nat {
      CountOneMore(facts, f, IsMint(p));
    }
    forall p: nat {
      CountOneMore(facts, f, IsApproval(p));
    }
    forall e: nat {
      CountOneMore(facts, f, IsUse(e));
    }
  }

  lemma FailedStaysFailed(codes: seq<JsString>, device: Hash, now: int)
    ensures Attempts(Failed, codes, device, now).None?
  {
  }

  /** Nothing but the first of the five attempts can succeed. */
  lemma FirstAttemptDecides(db: Db, codes: seq<JsString>, device: Hash, now: int)
    ensures
      var r := Attempts(Open(db), codes, device, now);
      if codes == [] || ByCode(db, Sha(codes[0])).Some? || ByDevice(db, device).Some? then r.None?
      else r == Some((InsertPairing(Open(db), Sha(codes[0]), device, now).0.db, codes[0]))
  {
    if codes != [] {
      FailedStaysFailed(codes[1..], device, now);
    }
  }

  lemma SweepKeeps(db: Db, now: int)
    requires Inv(db)
    ensures Inv(Sweep(db, now))
  {
    hide Count, Counted, Told;
    SweepCounted(db, now);
  }

  lemma SweepCounted(db: Db, now: int)
    requires Inv(db)
    ensures Counted(Sweep(db, now)) && Told(Sweep(db, now))
  {
    hide Count, Keyed, UsesCounted;
  }

  lemma InsertCounted(db: Db, code: Hash, device: Hash, now: int)
    requires Inv(db) && ByCode(db, code).None? && ByDevice(db, device).None?
    ensures Counted(InsertPairing(Open(db), code, device, now).0.db)
  {
    hide Count, Told, UsesCounted;
  }

  lemma InsertTold(db: Db, code: Hash, device: Hash, now: int)
    requires Inv(db) && ByCode(db, code).None? && ByDevice(db, device).None?
    ensures
      var d := InsertPairing(Open(db), code, device, now).0.db;
      UsesCounted(d) && Told(d)
  {
    hide Count, Counted;
  }

  lemma InsertKeeps(db: Db, code: Hash, device: Hash, now: int)
    requires Inv(db) && ByCode(db, code).None? && ByDevice(db, device).None?
    ensures Inv(InsertPairing(Open(db), code, device, now).0.db)
  {
    hide Count, Counted, UsesCounted, Told;
    InsertCounted(db, code, device, now);
    InsertTold(db, code, device, now);
  }

  lemma StartKeeps(db: Db, device: JsString, codes: seq<JsString>, now: int)
    requires Inv(db)
    ensures Inv(Start(db, device, codes, now).0)
  {
    hide Inv, Attempts, InsertPairing, Sweep;
    SweepKeeps(db, now);
    FirstAttemptDecides(Sweep(db, now), codes, Sha(device), now);
    if Start(db, device, codes, now).1.Some? {
      InsertKeeps(Sweep(db, now), Sha(codes[0]), Sha(device), now);
    }
  }

  lemma ApproveCounted(db: Db, code: JsString, org: Org, now: int)
    requires Inv(db)
    ensures Counted(Approve(db, code, org, now).0)
  {
    hide Count, Told, UsesCounted, IsCodeShaped;
    if Approve(db, code, org, now).1 {
      CountsAfter(db.facts, Approved(ByCode(db, Sha(code)).value, org));
    }
  }

  lemma ApproveUses(db: Db, code: JsString, org: Org, now: int)
    requires Inv(db)
    ensures UsesCounted(Approve(db, code, org, now).0)
  {
    hide Count, Counted, Told, IsCodeShaped;
    if Approve(db, code, org, now).1 {
      CountsAfter(db.facts, Approved(ByCode(db, Sha(code)).value, org));
    }
  }

  lemma ApproveTold(db: Db, code: JsString, org: Org, now: int)
    requires Inv(db)
    ensures Told(Approve(db, code, org, now).0)
  {
    hide Count, Counted, UsesCounted;
    if Approve(db, code, org, now).1 {
      Prefixes(db.facts, Approved(ByCode(db, Sha(code)).value, org));
    }
  }

  lemma ApproveKeeps(db: Db, code: JsString, org: Org, now: int)
    requires Inv(db)
    ensures Inv(Approve(db, code, org, now).0)
  {
    hide Count, Counted, UsesCounted, Told;
    ApproveCounted(db, code, org, now);
    ApproveUses(db, code, org, now);
    ApproveTold(db, code, org, now);
  }

  lemma Prefixes(facts: seq<Fact>, f: Fact)
    ensures forall i :: 0 <= i < |facts| ==> (facts + [f])[i] == facts[i] && (facts + [f])[..i] == facts[..i]
    ensures (facts + [f])[|facts|] == f && (facts + [f])[..|facts|] == facts
    ensures forall g: Fact :: g in facts + [f] <==> g in facts || g == f
  {
  }

  lemma CollectCounted(db: Db, device: JsString, token: JsString, now: int)
    requires Inv(db)
    ensures Counted(CollectPairing(db, device, token, now).0)
  {
    hide Count, Told, UsesCounted;
    var r := CollectPairing(db, device, token, now);
    if r.1.Token? {
      CountsAfter(db.facts, Minted(ByDevice(db, Sha(device)).value, db.next, r.1.org));
    }
  }

  lemma CollectTold(db: Db, device: JsString, token: JsString, now: int)
    requires Inv(db)
    ensures Told(CollectPairing(db, device, token, now).0)
  {
    hide Count, Counted, UsesCounted, PrefixOf;
    var r := CollectPairing(db, device, token, now);
    if r.1.Token? {
      var p, d := ByDevice(db, Sha(device)).value, r.0;
      Prefixes(db.facts, Minted(p, db.next, r.1.org));
      forall i | 0 <= i < |d.facts| && d.facts[i].Minted?
        ensures
          && Approved(d.facts[i].pairing, d.facts[i].org) in d.facts[..i]
          && d.facts[i].enrollment in d.enrollments && d.enrollments[d.facts[i].enrollment].org == d.facts[i].org
      {
        if i < |db.facts| {
          assert d.facts[i] == db.facts[i] && d.facts[..i] == db.facts[..i];
        } else {
          assert d.facts[..i] == db.facts;
        }
      }
    }
  }

  lemma CollectUses(db: Db, device: JsString, token: JsString, now: int)
    requires Inv(db)
    ensures UsesCounted(CollectPairing(db, device, token, now).0)
  {
    hide Count, Counted, Told;
    var r := CollectPairing(db, device, token, now);
    if r.1.Token? {
      CountsAfter(db.facts, Minted(ByDevice(db, Sha(device)).value, db.next, r.1.org));
    }
  }

  lemma CollectKeeps(db: Db, device: JsString, token: JsString, now: int)
    requires Inv(db)
    ensures Inv(CollectPairing(db, device, token, now).0)
  {
    hide Count, Counted, UsesCounted, Told;
    CollectCounted(db, device, token, now);
    CollectUses(db, device, token, now);
    CollectTold(db, device, token, now);
  }

  lemma CreateCounted(db: Db, org: Org, token: JsString, ttlHours: int, now: int)
    requires Inv(db)
    ensures
      var d := Create(db, org, token, ttlHours, now).0;
      Counted(d) && UsesCounted(d) && Told(d)
  {
    hide Count, PrefixOf;
  }

  lemma CreateKeeps(db: Db, org: Org, token: JsString, ttlHours: int, now: int)
    requires Inv(db)
    ensures Inv(Create(db, org, token, ttlHours, now).0)
  {
    hide Count, Counted, UsesCounted, Told;
    CreateCounted(db, org, token, ttlHours, now);
  }

  lemma RevokeKeeps(db: Db, org: Org, prefix: JsString, now: int)
    requires Inv(db)
    ensures Inv(Revoke(db, org, prefix, now).0)
  {
    hide Count;
  }

  lemma RegisterCounted(db: Db, presented: JsString, host: HostId, now: int)
    requires Inv(db)
    ensures Counted(Register(db, presented, host, now).0) && UsesCounted(Register(db, presented, host, now).0)
  {
    hide Count, Told, StartsWith;
    var r := Register(db, presented, host, now);
    if r.1.Accepted? {
      CountsAfter(db.facts, Redeemed(r.1.enrollment, host));
    }
  }

  lemma RegisterKeeps(db: Db, presented: JsString, host: HostId, now: int)
    requires Inv(db)
    ensures Inv(Register(db, presented, host, now).0)
  {
    hide Count, Counted, UsesCounted, StartsWith;
    RegisterCounted(db, presented, host, now);
    var r := Register(db, presented, host, now);
    if r.1.Accepted? {
      Prefixes(db.facts, Redeemed(r.1.enrollment, host));
    }
  }

  lemma {:induction false} RunKeeps(db: Db, events: seq<Event>)
    requires Inv(db)
    ensures Inv(Run(db, events))
    decreases |events|
  {
    if events != [] {
      hide Inv, Start, Approve, CollectPairing, Create, Revoke, Register;
      match events[0] {
        case StartEvent(device, codes, now) => StartKeeps(db, device, codes, now);
        case ApproveEvent(code, org, now) => ApproveKeeps(db, code, org, now);
        case CollectEvent(device, token, now) => CollectKeeps(db, device, token, now);
        case CreateEvent(org, token, ttlHours, now) => CreateKeeps(db, org, token, ttlHours, now);
        case RevokeEvent(org, prefix, now) => RevokeKeeps(db, org, prefix, now);
        case RegisterEvent(presented, host, now) => RegisterKeeps(db, presented, host, now);
      }
      RunKeeps(Step(db, events[0]), events[1..]);
    }
  }

  lemma NothingYet()
    ensures Inv(EMPTY)
  {
  }

  // ------------------------------------------------------------- main results

  lemma {:induction false} CountAtLeast(facts: seq<Fact>, counts: Fact -> bool, i: nat, j: nat)
    requires i <= j < |facts| && counts(facts[i]) && counts(facts[j])
    ensures Count(facts, counts) >= if i == j then 1 else 2
    decreases |facts|
  {
    var init := facts[..|facts| - 1];
    if j < |init| {
      CountAtLeast(init, counts, i, j);
    } else if i < j {
      CountAtLeast(init, counts, i, i);
    }
  }

  /** Over every run from the empty tables: each thing happens at most once. */
  lemma {:induction false} OncePerRun(events: seq<Event>)
    ensures forall p: nat :: Count(Run(EMPTY, events).facts, IsMint(p)) <= 1
    ensures forall p: nat :: Count(Run(EMPTY, events).facts, IsApproval(p)) <= 1
    ensures forall e: nat :: Count(Run(EMPTY, events).facts, IsUse(e)) <= 1
  {
    hide Count, Step;
    NothingYet();
    RunKeeps(EMPTY, events);
  }

  /**
   * A pairing mints at most one enrollment, only after it was approved, and always in the org of its
   * one approver.
   */
  lemma MintsFollowTheApproval(events: seq<Event>, i: nat)
    requires i < |Run(EMPTY, events).facts| && Run(EMPTY, events).facts[i].Minted?
    ensures
      var facts := Run(EMPTY, events).facts;
      && (forall j :: 0 <= j < |facts| && facts[j].Minted? && facts[j].pairing == facts[i].pairing ==> j == i)
      && (exists a :: 0 <= a < i && facts[a] == Approved(facts[i].pairing, facts[i].org)
                      && forall j :: 0 <= j < |facts| && facts[j].Approved? && facts[j].pairing == facts[i].pairing ==> j == a)
      && facts[i].enrollment in Run(EMPTY, events).enrollments
      && Run(EMPTY, events).enrollments[facts[i].enrollment].org == facts[i].org
  {
    hide Count, Step;
    NothingYet();
    RunKeeps(EMPTY, events);
    OncePerRun(events);
    var facts := Run(EMPTY, events).facts;
    var p := facts[i].pairing;
    forall j | 0 <= j < |facts| && facts[j].Minted? && facts[j].pairing == p
      ensures j == i
    {
      CountAtLeast(facts, IsMint(p), if i < j then i else j, if i < j then j else i);
    }
    var a :| 0 <= a < i && facts[..i][a] == Approved(p, facts[i].org);
    forall j | 0 <= j < |facts| && facts[j].Approved? && facts[j].pairing == p
      ensures j == a
    {
      CountAtLeast(facts, IsApproval(p), if a < j then a else j, if a < j then j else a);
    }
  }

  /** An enrollment is redeemed by at most one host. */
  lemma RedeemedByOneHost(events: seq<Event>, i: nat, j: nat)
    requires i <= j < |Run(EMPTY, events).facts|
    requires Run(EMPTY, events).facts[i].Redeemed? && Run(EMPTY, events).facts[j].Redeemed?
    requires Run(EMPTY, events).facts[i].enrollment == Run(EMPTY, events).facts[j].enrollment
    ensures i == j
  {
    hide Count, Step;
    OncePerRun(events);
    CountAtLeast(Run(EMPTY, events).facts, IsUse(Run(EMPTY, events).facts[i].enrollment), i, j);
  }

  /** The poll of an approved, uncollected pairing is answered with a token, however late it comes. */
  lemma ApprovedIsCollectable(db: Db, p: nat, device: JsString, token: JsString, now: int)
    requires Inv(db) && p in db.pairings && db.pairings[p].device == Sha(device) && |device| >= MIN_DEVICE_CODE
    ensures
      var row := db.pairings[p];
      CollectPairing(db, device, token, now).1.Token? <==>
        row.approved.Some? && row.collectedAt.None? && ByPrefix(db, PrefixOf(token)).None?
    ensures CollectPairing(db, device, token, now).1.Token? ==>
              CollectPairing(db, device, token, now).1.org == db.pairings[p].approved.value.org
  {
    hide Counted, UsesCounted, Told;
    assert ByDevice(db, Sha(device)) == Some(p);
  }

  /** A start that succeeds sweeps exactly the uncollected pairings past their time, approved or not. */
  lemma StartSweepsExactly(db: Db, device: JsString, codes: seq<JsString>, now: int, p: nat)
    requires Inv(db) && p in db.pairings && Start(db, device, codes, now).1.Some?
    ensures
      var d := Start(db, device, codes, now).0;
      (p in d.pairings && d.pairings[p] == db.pairings[p])
      <==> !(db.pairings[p].expiresAt < now && db.pairings[p].collectedAt.None?)
  {
    hide Attempts, Counted, UsesCounted, Told;
    FirstAttemptDecides(Sweep(db, now), codes, Sha(device), now);
  }

  /**
   * The retry does not recover from a collision: the transaction the first failed INSERT leaves behind
   * refuses the others. A start succeeds exactly when its first code, and its device code, are free
   * among the rows that survive the sweep; and then the code shown is that first one.
   */
  lemma StartExactly(db: Db, device: JsString, codes: seq<JsString>, now: int)
    requires codes != []
    ensures
      var kept := Sweep(db, now).pairings;
      Start(db, device, codes, now).1
      == if exists p <- kept :: kept[p].code == Sha(codes[0]) || kept[p].device == Sha(device)
         then None else Some(Format(codes[0]))
    ensures Start(db, device, codes, now).1.None? ==> Start(db, device, codes, now).0 == db
  {
    hide Attempts, Sweep;
    FirstAttemptDecides(Sweep(db, now), codes, Sha(device), now);
  }

  /** What may not happen for an approved pairing to keep: a late start, or its own collection. */
  predicate Spares(e: Event, row: Pairing) {
    && (e.StartEvent? ==> e.now <= row.expiresAt)
    && (e.CollectEvent? ==> Sha(e.device) != row.device)
  }

  /** Until a start comes after its expiry, nothing but its own agent's poll touches an approved pairing. */
  lemma {:induction false} ApprovedKeeps(db: Db, p: nat, events: seq<Event>)
    requires Inv(db) && p in db.pairings && db.pairings[p].approved.Some? && db.pairings[p].collectedAt.None?
    requires forall i :: 0 <= i < |events| ==> Spares(events[i], db.pairings[p])
    ensures p in Run(db, events).pairings && Run(db, events).pairings[p] == db.pairings[p]
    decreases |events|
  {
    if events != [] {
      StepSpares(db, p, events[0]);
      RunKeeps(db, events[..1]);
      OneStep(db, events);
      hide Step, Inv;
      ApprovedKeeps(Step(db, events[0]), p, events[1..]);
    }
  }

  lemma OneStep(db: Db, events: seq<Event>)
    requires events != []
    ensures Run(db, events[..1]) == Step(db, events[0])
  {
    hide Step;
    assert events[..1][1..] == [];
  }

  lemma StepSpares(db: Db, p: nat, e: Event)
    requires Inv(db) && p in db.pairings && db.pairings[p].approved.Some? && db.pairings[p].collectedAt.None?
    requires Spares(e, db.pairings[p])
    ensures p in Step(db, e).pairings && Step(db, e).pairings[p] == db.pairings[p]
  {
    hide Attempts, Counted, UsesCounted, Told;
    match e {
      case StartEvent(device, codes, now) =>
        FirstAttemptDecides(Sweep(db, now), codes, Sha(device), now);
      case _ =>
    }
  }

  /**
   * The admin's two calls agree when nothing comes in between: an approval succeeds exactly when the
   * lookup shows a pairing that is not approved yet, and otherwise the lookup's answer is the reason.
   */
  lemma ApprovalMatchesLookup(db: Db, code: JsString, org: Org, now: int)
    requires Inv(db)
    ensures Approve(db, code, org, now).1 <==> LookUp(db, code, now) == Found(false)
    ensures Approve(db, code, org, now).1 ==> LookUp(Approve(db, code, org, now).0, code, now) == Found(true)
    ensures !Approve(db, code, org, now).1 ==> Approve(db, code, org, now).0 == db
  {
    hide Told, UsesCounted;
    var r := Approve(db, code, org, now);
    ApproveKeeps(db, code, org, now);
    if r.1 {
      var p := ByCode(db, Sha(code)).value;
      assert p in r.0.pairings && r.0.pairings[p].code == Sha(code);
      assert ByCode(r.0, Sha(code)) == Some(p);
    }
  }

  /**
   * An approved pairing can be collected by its agent, in its approver's org, at any instant after any run
   * without a start past its expiry: expired or not, only a taken token prefix can be in the way.
   */
  lemma ApprovedStaysCollectable(db: Db, p: nat, events: seq<Event>, device: JsString, token: JsString, now: int)
    requires Inv(db) && p in db.pairings && db.pairings[p].approved.Some? && db.pairings[p].collectedAt.None?
    requires forall i :: 0 <= i < |events| ==> Spares(events[i], db.pairings[p])
    requires db.pairings[p].device == Sha(device) && |device| >= MIN_DEVICE_CODE
    ensures
      var d := Run(db, events);
      CollectPairing(d, device, token, now).1
      == if ByPrefix(d, PrefixOf(token)).None? then Token(token, db.pairings[p].approved.value.org) else Thrown
  {
    hide Inv, Step;
    ApprovedKeeps(db, p, events);
    RunKeeps(db, events);
    CollectAnswers(Run(db, events), p, device, token, now);
  }

  lemma CollectAnswers(db: Db, p: nat, device: JsString, token: JsString, now: int)
    requires Inv(db) && p in db.pairings && db.pairings[p].approved.Some? && db.pairings[p].collectedAt.None?
    requires db.pairings[p].device == Sha(device) && |device| >= MIN_DEVICE_CODE
    ensures
      CollectPairing(db, device, token, now).1
      == if ByPrefix(db, PrefixOf(token)).None? then Token(token, db.pairings[p].approved.value.org) else Thrown
  {
    hide Counted, UsesCounted, Told, PrefixOf;
    assert ByDevice(db, Sha(device)) == Some(p);
  }

  /**
   * A minted token works once: registering a host with it is accepted within the hour, in its org, and
   * then no host is ever accepted with it again; later than that it is refused.
   */
  lemma TokenWorksOnce(db: Db, device: JsString, token: JsString, now: int, host: HostId, later: int,
                       other: HostId, last: int)
    requires Inv(db) && StartsWith(token, [0x6d, 0x61, 0x65, 0x5f]) && |token| >= PREFIX_LEN
    requires CollectPairing(db, device, token, now).1.Token?
    ensures
      var d := CollectPairing(db, device, token, now).0;
      var r := Register(d, token, host, later);
      if later < now + 3600000
      then r.1 == Accepted(db.next, CollectPairing(db, device, token, now).1.org)
           && Register(r.0, token, other, last) == (r.0, AlreadyUsed)
      else r == (d, TooLate)
  {
    hide Counted, UsesCounted, Told, StartsWith;
    CollectKeeps(db, device, token, now);
    var d := CollectPairing(db, device, token, now).0;
    assert d.enrollments[db.next].prefix == token[..PREFIX_LEN];
    PrefixFinds(d, db.next);
    var r := Register(d, token, host, later);
    RegisterKeeps(d, token, host, later);
    if later < now + HOUR_MS {
      assert r.0.enrollments[db.next].prefix == token[..PREFIX_LEN];
      PrefixFinds(r.0, db.next);
    }
  }

  lemma PrefixFinds(db: Db, e: nat)
    requires Keyed(db) && e in db.enrollments
    ensures ByPrefix(db, db.enrollments[e].prefix) == Some(e)
  {
  }

  // ------------------------------------------------------ what is let in, and why

  /** The live enrollment this very text is the token of. */
  ghost predicate Opens(row: Enrollment, presented: JsString, now: int)
    requires |presented| >= 12
  {
    && row.prefix == presented[..12] && row.token == Sha(presented)
    && row.revokedAt.None? && row.used.None? && now < row.expiresAt
  }

  /**
   * A registration is accepted exactly when the text presented starts with `mae_`, is long enough, and is, as a
   * whole, the token of an enrollment that is not revoked, not used and not expired; and then that enrollment
   * is used by this host. A refusal changes nothing.
   */
  lemma RegisterExactly(db: Db, presented: JsString, host: HostId, now: int)
    requires Inv(db)
    ensures
      var (d, r) := Register(db, presented, host, now);
      && (r.Accepted? <==> |presented| >= 12 && presented[..4] == Js("mae_")
                           && exists e <- db.enrollments :: Opens(db.enrollments[e], presented, now))
      && (!r.Accepted? ==> d == db)
      && (r.Accepted? ==>
            && |presented| >= 12 && r.enrollment in db.enrollments
            && Opens(db.enrollments[r.enrollment], presented, now) && r.org == db.enrollments[r.enrollment].org
            && d.pairings == db.pairings
            && d.enrollments
               == db.enrollments[r.enrollment := db.enrollments[r.enrollment].(used := Some(Use(now, host)))])
  {
    hide Counted, UsesCounted, Told;
    StartsMae(presented);
    if |presented| >= 12 {
      forall e | e in db.enrollments && Opens(db.enrollments[e], presented, now)
        ensures ByPrefix(db, presented[..12]) == Some(e)
      {
        PrefixFinds(db, e);
      }
    }
  }

  lemma StartsMae(s: JsString)
    ensures |s| >= 12 ==> (StartsWith(s, [0x6d, 0x61, 0x65, 0x5f]) <==> s[..4] == Js("mae_"))
  {
    assert Js("mae_") == [0x6d, 0x61, 0x65, 0x5f];
  }

  /** A token is created exactly when its prefix is free, and works for as many hours as were asked for. */
  lemma CreatedTokenWorks(db: Db, org: Org, token: JsString, ttlHours: int, now: int, host: HostId, later: int)
    requires Inv(db) && |token| >= 12 && token[..4] == Js("mae_")
    ensures
      var (d, ok) := Create(db, org, token, ttlHours, now);
      && (ok <==> forall e <- db.enrollments :: db.enrollments[e].prefix != token[..12])
      && (!ok ==> d == db)
      && (ok ==> d.pairings == db.pairings
                 && Register(d, token, host, later).1
                    == if later < now + ttlHours * 3600000 then Accepted(db.next, org) else TooLate)
  {
    hide Counted, UsesCounted, Told, StartsWith;
    CreateKeeps(db, org, token, ttlHours, now);
    StartsMae(token);
    var d := Create(db, org, token, ttlHours, now).0;
    if Create(db, org, token, ttlHours, now).1 {
      assert d.enrollments[db.next].prefix == token[..12];
      PrefixFinds(d, db.next);
    }
  }

  /** This step made the enrollment, with this text as its token. */
  ghost predicate Mints(db: Db, ev: Event, e: nat, token: JsString) {
    (ev.CreateEvent? || ev.CollectEvent?) && ev.token == token && e !in db.enrollments && e in Step(db, ev).enrollments
  }

  /** How long a token minted by this step works. */
  function Lifetime(ev: Event): int
    requires ev.CreateEvent? || ev.CollectEvent?
  {
    if ev.CreateEvent? then ev.ttlHours * 3600000 else 3600000
  }

  /** This step revoked the enrollment of this prefix. */
  ghost predicate Revokes(db: Db, ev: Event, prefix: JsString) {
    ev.RevokeEvent? && ev.prefix == prefix && Revoke(db, ev.org, ev.prefix, ev.now).1
  }

  /** A revocation succeeds exactly for an unrevoked enrollment of the org, and then for every one of that prefix. */
  lemma RevokeExactly(db: Db, org: Org, prefix: JsString, now: int)
    requires Inv(db)
    ensures
      var (d, ok) := Revoke(db, org, prefix, now);
      && (ok <==> exists e <- db.enrollments ::
                    && db.enrollments[e].prefix == prefix && db.enrollments[e].org == org
                    && db.enrollments[e].revokedAt.None?)
      && (!ok ==> d == db)
      && (ok ==> d.enrollments.Keys == db.enrollments.Keys && d.pairings == db.pairings
                 && forall e <- db.enrollments ::
                      d.enrollments[e] == if db.enrollments[e].prefix == prefix
                                          then db.enrollments[e].(revokedAt := Some(now)) else db.enrollments[e])
  {
    hide Counted, UsesCounted, Told;
    forall e | e in db.enrollments && db.enrollments[e].prefix == prefix
      ensures ByPrefix(db, prefix) == Some(e)
    {
      PrefixFinds(db, e);
    }
  }

  /** An enrollment keeps its token; a revocation stays, and one of its prefix is one of it. */
  lemma EnrollmentStays(db: Db, ev: Event, e: nat)
    requires Inv(db) && e in db.enrollments
    ensures
      var d := Step(db, ev);
      && e in d.enrollments
      && var (was, row) := (db.enrollments[e], d.enrollments[e]);
         && row.prefix == was.prefix && row.token == was.token && row.expiresAt == was.expiresAt && row.org == was.org
         && (was.revokedAt.Some? || Revokes(db, ev, was.prefix) ==> row.revokedAt.Some?)
  {
    hide Counted, UsesCounted, Told, PrefixOf, StartsWith;
    match ev {
      case StartEvent(device, codes, now) => StartsNoEnrollment(db, device, codes, now);
      case RevokeEvent(org, prefix, now) => PrefixFinds(db, e);
      case _ =>
    }
  }

  lemma StartsNoEnrollment(db: Db, device: JsString, codes: seq<JsString>, now: int)
    ensures
      Start(db, device, codes, now).0.enrollments == db.enrollments && Start(db, device, codes, now).0.facts == db.facts
  {
    hide Attempts;
    FirstAttemptDecides(Sweep(db, now), codes, Sha(device), now);
  }

  /** A new enrollment is that of the text just minted. */
  lemma NewEnrollment(db: Db, ev: Event, e: nat)
    requires Inv(db) && e !in db.enrollments && e in Step(db, ev).enrollments
    ensures
      && (ev.CreateEvent? || ev.CollectEvent?) && Mints(db, ev, e, ev.token)
      && Step(db, ev).enrollments[e].prefix == PrefixOf(ev.token) && Step(db, ev).enrollments[e].token == Sha(ev.token)
      && Step(db, ev).enrollments[e].expiresAt == ev.now + Lifetime(ev)
  {
    hide Counted, UsesCounted, Told, PrefixOf, StartsWith;
    match ev {
      case StartEvent(device, codes, now) => StartsNoEnrollment(db, device, codes, now);
      case _ =>
    }
  }

  /** Event `j` of the run minted the enrollment, which no later event has revoked while it is not revoked. */
  ghost predicate Origin(events: seq<Event>, e: nat, j: nat) {
    && j < |events| && (events[j].CreateEvent? || events[j].CollectEvent?)
    && Mints(Run(EMPTY, events[..j]), events[j], e, events[j].token)
    && e in Run(EMPTY, events).enrollments
    && var row := Run(EMPTY, events).enrollments[e];
       && row.prefix == PrefixOf(events[j].token) && row.token == Sha(events[j].token)
       && row.expiresAt == events[j].now + Lifetime(events[j])
       && (row.revokedAt.None? ==> NotRevoked(events, j, |events|, row.prefix))
  }

  /** No event strictly between the two revoked an enrollment of this prefix. */
  ghost predicate NotRevoked(events: seq<Event>, j: nat, k: nat, prefix: JsString)
    requires k <= |events|
  {
    forall r :: j < r < k ==> !Revokes(Run(EMPTY, events[..r]), events[r], prefix)
  }

  lemma {:induction false} RunSplit(db: Db, a: seq<Event>, b: seq<Event>)
    ensures Run(db, a + b) == Run(Run(db, a), b)
    decreases |a|
  {
    hide Step;
    if a == [] {
      assert a + b == b;
    } else {
      assert (a + b)[1..] == a[1..] + b;
      RunSplit(Step(db, a[0]), a[1..], b);
    }
  }

  lemma RunLast(events: seq<Event>)
    requires events != []
    ensures Run(EMPTY, events) == Step(Run(EMPTY, events[..|events| - 1]), events[|events| - 1])
  {
    hide Step;
    var n := |events| - 1;
    assert events == events[..n] + [events[n]];
    RunSplit(EMPTY, events[..n], [events[n]]);
    assert [events[n]][1..] == [];
  }

  lemma EveryRunKeeps(events: seq<Event>)
    ensures Inv(Run(EMPTY, events))
  {
    NothingYet();
    RunKeeps(EMPTY, events);
  }

  lemma {:induction false} HasOrigin(events: seq<Event>, e: nat) returns (j: nat)
    requires e in Run(EMPTY, events).enrollments
    ensures Origin(events, e, j)
    decreases |events|
  {
    var n := |events| - 1;
    var init := events[..n];
    EveryRunKeeps(init);
    RunLast(events);
    var db := Run(EMPTY, init);
    hide Step, Inv, Lifetime, Run;
    if e in db.enrollments {
      j := HasOrigin(init, e);
      EnrollmentStays(db, events[n], e);
      OriginStays(events, e, j);
    } else {
      j := n;
      NewEnrollment(db, events[n], e);
    }
  }

  lemma NotRevokedLonger(events: seq<Event>, j: nat, k: nat, prefix: JsString)
    requires events != [] && k <= |events| - 1
    ensures NotRevoked(events[..|events| - 1], j, k, prefix) <==> NotRevoked(events, j, k, prefix)
  {
    hide Revokes, Run;
    var init := events[..|events| - 1];
    forall r | 0 <= r < k
      ensures init[..r] == events[..r] && init[r] == events[r]
    {
    }
  }

  lemma NotRevokedNow(events: seq<Event>, j: nat, prefix: JsString)
    requires events != [] && NotRevoked(events, j, |events| - 1, prefix)
    requires !Revokes(Run(EMPTY, events[..|events| - 1]), events[|events| - 1], prefix)
    ensures NotRevoked(events, j, |events|, prefix)
  {
    hide Revokes, Run;
  }

  lemma OriginStays(events: seq<Event>, e: nat, j: nat)
    requires events != [] && Origin(events[..|events| - 1], e, j) && e in Run(EMPTY, events).enrollments
    requires
      var was := Run(EMPTY, events[..|events| - 1]).enrollments[e];
      var row := Run(EMPTY, events).enrollments[e];
      && row.prefix == was.prefix && row.token == was.token && row.expiresAt == was.expiresAt
      && (was.revokedAt.Some? || Revokes(Run(EMPTY, events[..|events| - 1]), events[|events| - 1], was.prefix)
          ==> row.revokedAt.Some?)
    ensures Origin(events, e, j)
  {
    hide Step, Revokes, Lifetime, Run, Mints, NotRevoked;
    var n := |events| - 1;
    var init, row := events[..n], Run(EMPTY, events).enrollments[e];
    assert init[..j] == events[..j] && init[j] == events[j];
    if row.revokedAt.None? {
      NotRevokedLonger(events, j, n, row.prefix);
      NotRevokedNow(events, j, row.prefix);
    }
  }

  /** A step adds one fact at most, and a redemption only when the registration is accepted. */
  lemma OneFact(db: Db, ev: Event)
    ensures
      var d := Step(db, ev);
      && |db.facts| <= |d.facts| <= |db.facts| + 1 && d.facts[..|db.facts|] == db.facts
      && (|d.facts| > |db.facts| && d.facts[|db.facts|].Redeemed? ==>
            && ev.RegisterEvent? && d.facts[|db.facts|].host == ev.host
            && Register(db, ev.presented, ev.host, ev.now).1.Accepted?
            && Register(db, ev.presented, ev.host, ev.now).1.enrollment == d.facts[|db.facts|].enrollment)
  {
    hide StartsWith, PrefixOf;
    match ev {
      case StartEvent(device, codes, now) => StartsNoEnrollment(db, device, codes, now);
      case _ =>
    }
  }

  /** Event `k` is the registration this fact records: it presented the very text event `j` minted. */
  ghost predicate CameFrom(events: seq<Event>, f: Fact, j: nat, k: nat) {
    && f.Redeemed? && j < k < |events| && events[k].RegisterEvent? && events[k].host == f.host
    && (events[j].CreateEvent? || events[j].CollectEvent?)
    && Mints(Run(EMPTY, events[..j]), events[j], f.enrollment, events[k].presented)
    && NotRevoked(events, j, k, PrefixOf(events[k].presented))
    && events[k].now < events[j].now + Lifetime(events[j])
  }

  /**
   * Over every run: whoever was let in presented the very text that was minted before, which nobody had revoked
   * in between, and within its lifetime.
   */
  lemma {:induction false} RedeemedWasMinted(events: seq<Event>, i: nat)
    requires i < |Run(EMPTY, events).facts| && Run(EMPTY, events).facts[i].Redeemed?
    ensures exists j: nat, k: nat :: CameFrom(events, Run(EMPTY, events).facts[i], j, k)
    decreases |events|
  {
    var n := |events| - 1;
    var init, f := events[..n], Run(EMPTY, events).facts[i];
    RunLast(events);
    var db := Run(EMPTY, init);
    OneFact(db, events[n]);
    EveryRunKeeps(init);
    hide Step, Inv, Lifetime, Run;
    if i < |db.facts| {
      assert db.facts[i] == f;
      RedeemedWasMinted(init, i);
      var j: nat, k: nat :| CameFrom(init, f, j, k);
      CameFromLonger(events, f, j, k);
    } else {
      assert i == |db.facts|;
      RegisterExactly(db, events[n].presented, events[n].host, events[n].now);
      var j := HasOrigin(init, f.enrollment);
      NowFrom(events, f, j);
    }
  }

  lemma CameFromLonger(events: seq<Event>, f: Fact, j: nat, k: nat)
    requires events != [] && CameFrom(events[..|events| - 1], f, j, k)
    ensures CameFrom(events, f, j, k)
  {
    hide Lifetime, Run, Mints, NotRevoked;
    var init := events[..|events| - 1];
    assert init[..j] == events[..j] && init[j] == events[j] && init[k] == events[k];
    NotRevokedLonger(events, j, k, PrefixOf(events[k].presented));
  }

  lemma NowFrom(events: seq<Event>, f: Fact, j: nat)
    requires events != [] && events[|events| - 1].RegisterEvent? && f.Redeemed? && f.host == events[|events| - 1].host
    requires Origin(events[..|events| - 1], f.enrollment, j) && |events[|events| - 1].presented| >= 12
    requires Opens(Run(EMPTY, events[..|events| - 1]).enrollments[f.enrollment], events[|events| - 1].presented,
                   events[|events| - 1].now)
    ensures CameFrom(events, f, j, |events| - 1)
  {
    hide Lifetime, Run, Mints, NotRevoked;
    var n := |events| - 1;
    var init := events[..n];
    assert init[..j] == events[..j] && init[j] == events[j];
    assert events[j].token == events[n].presented;
    assert NotRevoked(init, j, n, PrefixOf(events[n].presented));
    NotRevokedLonger(events, j, n, PrefixOf(events[n].presented));
  }

  // ------------------------------------------------------- the life of a pairing

  /** What may happen while a pairing waits: no start past its expiry, and no approval of its code. */
  predicate LeavesPending(e: Event, row: Pairing) {
    && (e.StartEvent? ==> e.now <= row.expiresAt)
    && (e.ApproveEvent? ==> Sha(e.code) != row.code)
  }

  lemma StepLeavesPending(db: Db, p: nat, e: Event)
    requires Inv(db) && p in db.pairings && db.pairings[p].approved.None? && LeavesPending(e, db.pairings[p])
    ensures p in Step(db, e).pairings && Step(db, e).pairings[p] == db.pairings[p]
  {
    hide Attempts, Count, UsesCounted, Told, PrefixOf, StartsWith, IsCodeShaped;
    match e {
      case StartEvent(device, codes, now) =>
        FirstAttemptDecides(Sweep(db, now), codes, Sha(device), now);
      case _ =>
    }
  }

  lemma {:induction false} PendingKeeps(db: Db, p: nat, events: seq<Event>)
    requires Inv(db) && p in db.pairings && db.pairings[p].approved.None?
    requires forall i :: 0 <= i < |events| ==> LeavesPending(events[i], db.pairings[p])
    ensures p in Run(db, events).pairings && Run(db, events).pairings[p] == db.pairings[p]
    decreases |events|
  {
    if events != [] {
      StepLeavesPending(db, p, events[0]);
      RunKeeps(db, events[..1]);
      OneStep(db, events);
      hide Step, Inv;
      PendingKeeps(Step(db, events[0]), p, events[1..]);
    }
  }

  /** The row a start makes. */
  lemma StartedRow(db: Db, device: JsString, codes: seq<JsString>, now: int)
    requires Inv(db) && Start(db, device, codes, now).1.Some?
    ensures
      var d := Start(db, device, codes, now).0;
      && codes != [] && Inv(d) && db.next in d.pairings
      && d.pairings[db.next] == Pairing(Sha(codes[0]), Sha(device), now + 600000, None, None)
  {
    StartKeeps(db, device, codes, now);
    hide Attempts, Inv, Sweep;
    FirstAttemptDecides(Sweep(db, now), codes, Sha(device), now);
    assert Sweep(db, now).next == db.next by {
      SweepIs(db, now);
    }
  }

  lemma SweepIs(db: Db, now: int)
    ensures Sweep(db, now).next == db.next
  {
  }

  /** How a waiting pairing answers the agent and the admin. */
  lemma PendingAnswers(db: Db, p: nat, device: JsString, code: JsString, token: JsString, org: Org, now: int)
    requires Inv(db) && p in db.pairings && |device| >= 16 && IsCodeShaped(code)
    requires db.pairings[p].approved.None? && db.pairings[p].code == Sha(code) && db.pairings[p].device == Sha(device)
    ensures
      var live := now < db.pairings[p].expiresAt;
      && CollectPairing(db, device, token, now) == (db, if live then Pending else GoneStale)
      && LookUp(db, code, now) == (if live then Found(false) else Expired)
      && Approve(db, code, org, now).1 == live
      && (live ==> p in Approve(db, code, org, now).0.pairings
                   && Approve(db, code, org, now).0.pairings[p]
                      == db.pairings[p].(approved := Some(Approval(org, now))))
  {
    hide Count, UsesCounted, Told, IsCodeShaped;
    assert ByDevice(db, Sha(device)) == Some(p) && ByCode(db, Sha(code)) == Some(p);
  }

  /**
   * A pairing lives for ten minutes. From its start on, through every run without an approval of its code and
   * without a start past its expiry, the agent is told to wait and an admin sees it as pending and can approve
   * it, exactly until ten minutes have passed; after that both are told that it has expired. Once approved, the
   * agent's poll, however late, gets its token in that admin's org unless the token's prefix is taken.
   */
  lemma PairingLives(db: Db, device: JsString, codes: seq<JsString>, start: int, events: seq<Event>, token: JsString,
                     org: Org, now: int, later: int)
    requires Inv(db) && |device| >= 16 && Start(db, device, codes, start).1.Some? && IsCodeShaped(codes[0])
    requires forall i :: 0 <= i < |events| ==>
      && (events[i].StartEvent? ==> events[i].now <= start + 600000)
      && (events[i].ApproveEvent? ==> events[i].code != codes[0])
    ensures
      var d := Run(Start(db, device, codes, start).0, events);
      var live := now < start + 600000;
      var (approved, ok) := Approve(d, codes[0], org, now);
      && CollectPairing(d, device, token, now) == (d, if live then Pending else GoneStale)
      && LookUp(d, codes[0], now) == (if live then Found(false) else Expired)
      && ok == live
      && (live ==> CollectPairing(approved, device, token, later).1
                   == if ByPrefix(approved, PrefixOf(token)).None? then Token(token, org) else Thrown)
  {
    StartedRow(db, device, codes, start);
    var d0, p := Start(db, device, codes, start).0, db.next;
    PendingKeeps(d0, p, events);
    RunKeeps(d0, events);
    var d := Run(d0, events);
    hide Inv, Run, Start, PrefixOf;
    PendingAnswers(d, p, device, codes[0], token, org, now);
    ApproveKeeps(d, codes[0], org, now);
    if now < start + 600000 {
      CollectAnswers(Approve(d, codes[0], org, now).0, p, device, token, later);
    }
  }

  /** A collected pairing is never touched again: its agent is told so, and so is an admin. */
  lemma {:induction false} CollectedIsFinal(db: Db, p: nat, events: seq<Event>, device: JsString, code: JsString,
                                            token: JsString, org: Org, now: int)
    requires Inv(db) && p in db.pairings && db.pairings[p].collectedAt.Some? && |device| >= 16 && IsCodeShaped(code)
    requires db.pairings[p].code == Sha(code) && db.pairings[p].device == Sha(device)
    ensures
      var d := Run(db, events);
      && CollectPairing(d, device, token, now) == (d, Spent) && LookUp(d, code, now) == AlreadyCollected
      && Approve(d, code, org, now) == (d, false)
    decreases |events|
  {
    if events == [] {
      hide Count, UsesCounted, Told, IsCodeShaped;
      assert ByDevice(db, Sha(device)) == Some(p) && ByCode(db, Sha(code)) == Some(p);
    } else {
      StepLeavesCollected(db, p, events[0]);
      RunKeeps(db, events[..1]);
      OneStep(db, events);
      hide Step, Inv, IsCodeShaped, CollectPairing, LookUp, Approve;
      CollectedIsFinal(Step(db, events[0]), p, events[1..], device, code, token, org, now);
    }
  }

  lemma StepLeavesCollected(db: Db, p: nat, e: Event)
    requires Inv(db) && p in db.pairings && db.pairings[p].collectedAt.Some?
    ensures p in Step(db, e).pairings && Step(db, e).pairings[p] == db.pairings[p]
  {
    hide Attempts, Count, UsesCounted, Told, PrefixOf, StartsWith, IsCodeShaped;
    match e {
      case StartEvent(device, codes, now) =>
        FirstAttemptDecides(Sweep(db, now), codes, Sha(device), now);
      case _ =>
    }
  }

  /** A code or device that no row has, or that is too short, is unknown, and nothing changes. */
  lemma StrangersAreUnknown(db: Db, device: JsString, code: JsString, token: JsString, org: Org, now: int)
    ensures |device| < 16 || (forall p <- db.pairings :: db.pairings[p].device != Sha(device))
            <==> CollectPairing(db, device, token, now).1 == UnknownDevice
    ensures CollectPairing(db, device, token, now).1 == UnknownDevice ==> CollectPairing(db, device, token, now).0 == db
    ensures !IsCodeShaped(code) || (forall p <- db.pairings :: db.pairings[p].code != Sha(code))
            <==> LookUp(db, code, now) == UnknownCode
  {
    hide IsCodeShaped;
  }
}
