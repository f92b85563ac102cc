/**
 * Rotation of the connection credential: record the rotation in the journal, replace the credential
 * file, commit in the journal, reconnect with the new credential and clear the record.  A crash may
 * come anywhere; what it leaves must still pass the binding check of the next start.
 */
module CredentialRotation {
  import opened Bytes
  import opened Options

  const MAXIMUM_CLOCK_SKEW := 600
  const MAXIMUM_LIFETIME := 3600
  const MAXIMUM_RECONNECT := 300
  const NO_RUNNER := 0

  /** A recorded rotation; it has no persisted time until its credential is known to be on disk. */
  datatype Rotation = Rotation(
    runner: int, id: int, fingerprint: int, issuedAt: int, expiresAt: int, reconnectBefore: int, persistedAt: Option<int>)

  datatype Committed = Committed(runner: int, id: int, fingerprint: int, issuedAt: int, expiresAt: int, persistedAt: int)

  datatype Journal = Journal(rotation: Option<Rotation>, committed: Option<Committed>)

  datatype Disk = Disk(journal: Journal, credential: Text)

  /** What the gateway asks for. */
  datatype Request = Request(id: int, credential: Text, fingerprint: int, issuedAt: int, expiresAt: int, reconnectBefore: int)

  /** The runner's own identity: the credential it was enrolled with, by its fingerprint. */
  datatype Identity = Identity(runner: int, enrolled: int)

  datatype Outcome = Fine | Reconnect | Refused | FileFault

  predicate Lifetime(issuedAt: int, expiresAt: int, reconnectBefore: int) {
    && issuedAt < expiresAt <= issuedAt + MAXIMUM_LIFETIME
    && issuedAt < reconnectBefore < expiresAt && reconnectBefore <= issuedAt + MAXIMUM_RECONNECT
  }

  /** The checks on a request. */
  predicate ValidRequest(fingerprint: Text -> int, r: Request, now: int) {
    && r.fingerprint == fingerprint(r.credential)
    && r.issuedAt <= now + MAXIMUM_CLOCK_SKEW
    && Lifetime(r.issuedAt, r.expiresAt, r.reconnectBefore)
    && now < r.reconnectBefore
  }

  function Requested(r: Request, runner: int): Rotation {
    Rotation(runner, r.id, r.fingerprint, r.issuedAt, r.expiresAt, r.reconnectBefore, None)
  }

  predicate SameRotation(a: Rotation, b: Rotation) {
    (a.runner == b.runner || a.runner == NO_RUNNER || b.runner == NO_RUNNER)
    && a.(runner := 0, persistedAt := None) == b.(runner := 0, persistedAt := None)
  }

  function CommittedBy(r: Rotation, runner: int, persistedAt: int): Committed {
    Committed(runner, r.id, r.fingerprint, r.issuedAt, r.expiresAt, persistedAt)
  }

  /** The committed credential is the one with this id, fingerprint and lifetime. */
  predicate Brings(c: Committed, runner: int, id: int, fingerprint: int, issuedAt: int, expiresAt: int) {
    c.runner == runner && c.id == id && c.fingerprint == fingerprint && c.issuedAt == issuedAt && c.expiresAt == expiresAt
  }

  /** The part of journal validation that concerns credentials. */
  predicate ValidJournal(j: Journal) {
    && (j.rotation.Some? ==>
          var r := j.rotation.value;
          Lifetime(r.issuedAt, r.expiresAt, r.reconnectBefore)
          && (r.persistedAt.Some? ==> r.persistedAt.value >= r.issuedAt - MAXIMUM_CLOCK_SKEW))
    && (j.committed.Some? ==>
          var c := j.committed.value;
          && c.issuedAt < c.expiresAt <= c.issuedAt + MAXIMUM_LIFETIME
          && c.issuedAt - MAXIMUM_CLOCK_SKEW <= c.persistedAt < c.expiresAt
          && (j.rotation.Some? && j.rotation.value.persistedAt.Some? ==>
                c == CommittedBy(j.rotation.value, j.rotation.value.runner, j.rotation.value.persistedAt.value)))
  }

  predicate ValidPredecessor(c: Committed, r: Rotation) {
    && c.runner == r.runner && c.id != r.id && c.fingerprint != r.fingerprint
    && r.issuedAt >= c.issuedAt - MAXIMUM_CLOCK_SKEW
    && r.issuedAt >= c.persistedAt - MAXIMUM_CLOCK_SKEW
  }

  /** The credential is the one a pending rotation brings, the committed one, or the persisted one. */
  predicate MatchesJournal(j: Journal, runner: int, digest: int, now: int) {
    if !ValidJournal(j) then false
    else if j.rotation.Some? && j.rotation.value.persistedAt.None? then
      var r := j.rotation.value;
      && r.runner == runner && now < r.expiresAt
      && if j.committed.None? then digest == r.fingerprint
         else
           ValidPredecessor(j.committed.value, r)
           && (digest == r.fingerprint || (now < j.committed.value.expiresAt && digest == j.committed.value.fingerprint))
    else if j.committed.None? || j.committed.value.runner != runner || now >= j.committed.value.expiresAt then false
    else if j.rotation.Some?
      && (j.rotation.value.runner != runner || j.rotation.value.id != j.committed.value.id
          || j.rotation.value.fingerprint != j.committed.value.fingerprint) then false
    else digest == j.committed.value.fingerprint
  }

  /** The binding check of a start. */
  predicate Accepts(fingerprint: Text -> int, identity: Identity, d: Disk, now: int) {
    fingerprint(d.credential) == identity.enrolled
    || MatchesJournal(d.journal, identity.runner, fingerprint(d.credential), now)
  }

  /** Nothing the journal names has expired. */
  predicate Unexpired(j: Journal, now: int) {
    && (j.rotation.Some? ==> now < j.rotation.value.expiresAt)
    && (j.committed.Some? ==> now < j.committed.value.expiresAt)
  }

  /** The journal binds the credential, whatever the time, until something expires. */
  ghost predicate Bound(fingerprint: Text -> int, identity: Identity, j: Journal, credential: Text) {
    var digest := fingerprint(credential);
    && ValidJournal(j)
    && (j.rotation.Some? ==> j.rotation.value.runner == identity.runner)
    && (j.committed.Some? ==> j.committed.value.runner == identity.runner)
    && (j.rotation.Some? && j.rotation.value.persistedAt.Some? ==> j.committed.Some?)
    && (j.rotation.Some? && j.rotation.value.persistedAt.None? && j.committed.Some? ==>
          ValidPredecessor(j.committed.value, j.rotation.value))
    && (digest == (if j.committed.Some? then j.committed.value.fingerprint else identity.enrolled)
        || (j.rotation.Some? && digest == j.rotation.value.fingerprint))
  }

  /** A bound credential passes the check until something expires. */
  lemma BoundIsAccepted(fingerprint: Text -> int, identity: Identity, d: Disk, now: int)
    requires Bound(fingerprint, identity, d.journal, d.credential) && Unexpired(d.journal, now)
    ensures Accepts(fingerprint, identity, d, now)
  {
  }

  /** The journal after a request was recorded; nothing when it conflicts. */
  function Recorded(j: Journal, r: Rotation): Option<Journal> {
    if j.rotation.None? then Some(j.(rotation := Some(r)))
    else if !SameRotation(j.rotation.value, r) then None
    else if j.rotation.value.runner == NO_RUNNER then Some(j.(rotation := Some(j.rotation.value.(runner := r.runner))))
    else Some(j)
  }

  /** The journal after the credential file was replaced. */
  function Persisted(j: Journal, r: Rotation, runner: int, now: int): Option<Journal> {
    if j.rotation.None? || !SameRotation(j.rotation.value, r) then None
    else
      var at := if j.rotation.value.persistedAt.Some? then j.rotation.value.persistedAt.value else now;
      Some(Journal(Some(j.rotation.value.(persistedAt := Some(at))), Some(CommittedBy(r, runner, at))))
  }

  /** The journal after the new credential has authenticated. */
  function Reconciled(j: Journal, runner: int, now: int): Option<Journal> {
    if j.rotation.None? then Some(j)
    else
      var r := j.rotation.value;
      if r.runner != runner || now >= r.expiresAt then None
      else if r.persistedAt.None? then
        if j.committed.Some? && !ValidPredecessor(j.committed.value, r) then None
        else Some(Journal(None, Some(CommittedBy(r, r.runner, now))))
      else if j.committed.None? then None
      else Some(j.(rotation := None))
  }

  /** The request follows the committed credential in order. */
  predicate Successor(j: Journal, r: Rotation) {
    j.rotation.Some? || j.committed.None? || ValidPredecessor(j.committed.value, r)
  }

  /** The clock has reached what the journal says has happened. */
  ghost predicate Timely(j: Journal, clock: int) {
    j.rotation.Some? ==> j.rotation.value.issuedAt <= clock + MAXIMUM_CLOCK_SKEW
  }

  lemma RecordedIsBound(fingerprint: Text -> int, identity: Identity, j: Journal, q: Request, now: int, credential: Text)
    requires Bound(fingerprint, identity, j, credential) && ValidRequest(fingerprint, q, now)
    requires identity.runner != NO_RUNNER && Successor(j, Requested(q, identity.runner))
    ensures var next := Recorded(j, Requested(q, identity.runner));
      && (next.None? <==> j.rotation.Some? && !SameRotation(j.rotation.value, Requested(q, identity.runner)))
      && (next.Some? ==>
            && ValidJournal(next.value)
            && Bound(fingerprint, identity, next.value, credential)
            && Bound(fingerprint, identity, next.value, q.credential))
      && (next.Some? && Timely(j, now) ==> Timely(next.value, now))
  {
  }

  lemma PersistedIsBound(fingerprint: Text -> int, identity: Identity, j: Journal, q: Request, now: int)
    requires Bound(fingerprint, identity, j, q.credential) && ValidRequest(fingerprint, q, now) && Timely(j, now)
    requires j.rotation.Some? && SameRotation(j.rotation.value, Requested(q, identity.runner))
    ensures var next := Persisted(j, Requested(q, identity.runner), identity.runner, now);
      next.Some? && ValidJournal(next.value) && Bound(fingerprint, identity, next.value, q.credential) && Timely(next.value, now)
  {
  }

  /** A rotation that went through commits exactly the requested credential. */
  lemma RotationBrings(fingerprint: Text -> int, j: Journal, q: Request, runner: int, now: int)
    requires ValidRequest(fingerprint, q, now)
    ensures var recorded := Recorded(j, Requested(q, runner));
      recorded.Some? && Persisted(recorded.value, Requested(q, runner), runner, now).Some? ==>
        var next := Persisted(recorded.value, Requested(q, runner), runner, now).value;
        && next.committed.Some? && Brings(next.committed.value, runner, q.id, fingerprint(q.credential), q.issuedAt, q.expiresAt)
        && q.fingerprint == fingerprint(q.credential)
        && next.rotation.Some? && next.rotation.value.persistedAt == Some(next.committed.value.persistedAt)
        && (next.committed.value.persistedAt == now
            || (j.rotation.Some? && j.rotation.value.persistedAt == Some(next.committed.value.persistedAt)))
  {
  }

  lemma ReconciledIsBound(fingerprint: Text -> int, identity: Identity, j: Journal, credential: Text, now: int)
    requires Bound(fingerprint, identity, j, credential) && Timely(j, now)
    requires j.rotation.Some? ==> fingerprint(credential) == j.rotation.value.fingerprint && now < j.rotation.value.expiresAt
    ensures var next := Reconciled(j, identity.runner, now);
      next.Some? && Bound(fingerprint, identity, next.value, credential) && next.value.rotation.None? && Timely(next.value, now)
  {
  }

  /** The runner process with its journal, its credential file and what it has in memory. */
  class CredentialClient {
    const fingerprint: Text -> int
    const identity: Identity
    // Every file operation works, and nobody kills the process.
    const healthy: bool
    var journal: Journal
    var credential: Text
    var running: bool
    var clock: int

    /** Every state the two files may be in after a crash right now. */
    var images: set<Disk>

    /** Every rotation recorded so far followed the committed credential in order. */
    ghost var orderly: bool

    /** Everything a crash may leave is bound, and so is what a running process goes on with. */
    ghost predicate Safe()
      reads this
    {
      && identity.runner != NO_RUNNER && images != {}
      && (orderly ==> forall d :: d in images ==>
            Bound(fingerprint, identity, d.journal, d.credential) && Timely(d.journal, clock))
      && (orderly && running ==> Bound(fingerprint, identity, journal, credential) && Timely(journal, clock))
      && (running ==> forall d :: d in images ==> d.credential == credential)
    }

    /** A freshly enrolled runner. */
    constructor (fingerprint: Text -> int, identity: Identity, credential: Text, now: int, healthy: bool)
      requires fingerprint(credential) == identity.enrolled && identity.runner != NO_RUNNER
      ensures Safe() && orderly && running && clock == now
      ensures this.fingerprint == fingerprint && this.identity == identity && this.credential == credential
      ensures this.healthy == healthy
    {
      this.healthy := healthy;
      this.fingerprint, this.identity, this.credential := fingerprint, identity, credential;
      journal, running, clock := Journal(None, None), true, now;
      images, orderly := {Disk(Journal(None, None), credential)}, true;
    }

    /** Updates the journal: refused when invalid, otherwise written, perhaps without being known to be. */
    method UpdateJournal(next: Option<Journal>) returns (outcome: Outcome)
      modifies this`journal, this`images
      ensures outcome.Fine? || outcome.Refused? || outcome.FileFault?
      ensures outcome.Refused? <==> next.None? || !ValidJournal(next.value)
      ensures outcome.Refused? ==> unchanged(this)
      ensures healthy ==> !outcome.FileFault?
      ensures journal == old(journal) || (next.Some? && journal == next.value)
      ensures outcome.Fine? ==> next.Some? && journal == next.value
      ensures outcome.Fine? ==> images == set d | d in old(images) :: Disk(journal, d.credential)
      ensures forall d :: d in images ==>
        d in old(images) || (next.Some? && exists e :: e in old(images) && d == Disk(next.value, e.credential))
      ensures old(images) != {} ==> images != {}
    {
      if next.None? || !ValidJournal(next.value) {
        return Refused;
      }
      var renamed: bool, synced: bool := *, *;
      renamed, synced := healthy || renamed, healthy || synced;
      if !renamed {
        return FileFault;
      }
      journal := next.value;
      var replaced := set d | d in images :: Disk(journal, d.credential);
      ghost var some := if images != {} then var d :| d in images; {Disk(journal, d.credential)} else {};
      assert some <= replaced;
      if synced {
        images := replaced;
        return Fine;
      }
      images := images + replaced;
      return FileFault;
    }

    /** Exchanges the credential file. */
    method ReplaceCredential(next: Text) returns (outcome: Outcome)
      modifies this`credential, this`images
      ensures outcome.Fine? || outcome.FileFault?
      ensures outcome.Fine? ==> credential == next && forall d :: d in images ==> d.credential == next
      ensures outcome.FileFault? ==> credential == old(credential)
      ensures healthy ==> outcome.Fine?
      ensures forall d :: d in images ==> d in old(images) || exists e :: e in old(images) && d == e.(credential := next)
      ensures old(images) != {} ==> images != {}
    {
      var exchanged: bool, synced: bool := *, *;
      exchanged, synced := healthy || exchanged, healthy || synced;
      var replaced := set d | d in images :: d.(credential := next);
      ghost var some := if images != {} then var d :| d in images; {d.(credential := next)} else {};
      assert some <= replaced;
      if !exchanged {
        return FileFault;
      }
      if !synced {
        images := images + replaced;
        return FileFault;
      }
      images, credential := replaced, next;
      return Fine;
    }

    /** The journal and every crash image agree on a record of this request. */
    ghost predicate Recording(q: Request)
      reads this
    {
      && journal.rotation.Some? && SameRotation(journal.rotation.value, Requested(q, identity.runner))
      && (orderly ==> Bound(fingerprint, identity, journal, q.credential))
      && forall d :: d in images ==> d.journal == journal
    }

    /** First step: the record. */
    method RecordRotation(q: Request, now: int) returns (outcome: Outcome)
      requires Safe() && running && now >= clock && ValidRequest(fingerprint, q, now)
      modifies this
      ensures Safe() && clock == now && credential == old(credential)
      ensures orderly == (old(orderly) && Successor(old(journal), Requested(q, identity.runner)))
      ensures outcome.Fine? || outcome.Refused? || outcome.FileFault?
      ensures running == outcome.Fine? && (outcome.Fine? ==> Recording(q) && Some(journal) == Recorded(old(journal), Requested(q, identity.runner)))
      ensures healthy ==> !outcome.FileFault?
      ensures orderly && outcome.Refused? ==>
        old(journal).rotation.Some? && !SameRotation(old(journal).rotation.value, Requested(q, identity.runner))
    {
      hide Bound, ValidJournal, ValidPredecessor, ValidRequest, Lifetime;
      clock := now;
      var r := Requested(q, identity.runner);
      orderly := orderly && Successor(journal, r);
      if orderly {
        RecordedIsBound(fingerprint, identity, journal, q, now, credential);
      }
      outcome := UpdateJournal(Recorded(journal, r));
      running := outcome.Fine?;
    }

    /** Second step: the credential file. */
    method InstallCredential(q: Request) returns (outcome: Outcome)
      requires Safe() && running && Recording(q)
      modifies this`credential, this`images, this`running
      ensures Safe() && (outcome.Fine? || outcome.FileFault?)
      ensures running == outcome.Fine? && (outcome.Fine? ==> Recording(q) && credential == q.credential)
      ensures healthy ==> outcome.Fine?
    {
      hide Bound, SameRotation;
      outcome := ReplaceCredential(q.credential);
      running := outcome.Fine?;
    }

    /** Third step: the commit.  Whether it is known to have happened or not, the runner reconnects. */
    method CommitRotation(q: Request, now: int) returns (outcome: Outcome)
      requires Safe() && running && Recording(q) && credential == q.credential && clock == now
      requires ValidRequest(fingerprint, q, now)
      modifies this`journal, this`images
      ensures Safe()
      ensures outcome.Fine? || outcome.Refused? || outcome.FileFault?
      ensures orderly ==> !outcome.Refused?
      ensures healthy ==> !outcome.FileFault?
      ensures outcome.Fine? ==> Some(journal) == Persisted(old(journal), Requested(q, identity.runner), identity.runner, now)
    {
      hide Bound, ValidJournal, ValidRequest, SameRotation;
      if orderly {
        PersistedIsBound(fingerprint, identity, journal, q, now);
      }
      outcome := UpdateJournal(Persisted(journal, Requested(q, identity.runner), identity.runner, now));
    }

    /**
     * Handles a rotation request.  The process may be killed between any two steps.  A request that
     * is valid and does not conflict with another one in progress is never refused.
     */
    method HandleRotation(q: Request, now: int) returns (outcome: Outcome)
      requires Safe() && running && now >= clock
      modifies this
      ensures Safe() && clock == now
      ensures orderly == (old(orderly) &&
        (ValidRequest(fingerprint, q, now) ==> Successor(old(journal), Requested(q, identity.runner))))
      ensures orderly && outcome.Refused? ==>
        !ValidRequest(fingerprint, q, now)
        || (old(journal).rotation.Some? && !SameRotation(old(journal).rotation.value, Requested(q, identity.runner)))
      ensures outcome.Reconnect? ==> running && credential == q.credential
      ensures outcome.Refused? || outcome.FileFault? ==> !running
      ensures outcome.Reconnect? || outcome.Refused? || outcome.FileFault?
      ensures healthy ==> !outcome.FileFault?
      ensures healthy && orderly && outcome.Reconnect? ==>
        var recorded := Recorded(old(journal), Requested(q, identity.runner));
        recorded.Some? && Some(journal) == Persisted(recorded.value, Requested(q, identity.runner), identity.runner, now)
      ensures healthy && orderly && outcome.Reconnect? ==>
        && journal.committed.Some? && Brings(journal.committed.value, identity.runner, q.id, q.fingerprint, q.issuedAt, q.expiresAt)
        && journal.committed.value.fingerprint == fingerprint(credential)
        && journal.rotation.Some? && journal.rotation.value.persistedAt == Some(journal.committed.value.persistedAt)
        && (journal.committed.value.persistedAt == now
            || (old(journal).rotation.Some? && old(journal).rotation.value.persistedAt == Some(journal.committed.value.persistedAt)))
    {
      hide Bound, ValidRequest, SameRotation;
      if !ValidRequest(fingerprint, q, now) {
        clock, running := now, false;
        return Refused;
      }
      outcome := RecordRotation(q, now);
      if !outcome.Fine? {
        return;
      }
      var killed: bool := *;
      killed := killed && !healthy;
      if !killed {
        outcome := InstallCredential(q);
        killed := *;
        killed := killed && !healthy;
      }
      if !outcome.Fine? || killed {
        running := false;
        return FileFault;
      }
      var committed := CommitRotation(q, now);
      if healthy && orderly {
        RotationBrings(fingerprint, old(journal), q, identity.runner, now);
      }
      return Reconnect;
    }

    /** Clears a rotation whose credential has authenticated. */
    method ReconcileAfterAuthentication(now: int) returns (outcome: Outcome)
      requires Safe() && running && now >= clock
      modifies this`journal, this`images, this`clock
      ensures Safe() && clock == now
      ensures orderly && outcome.Refused? ==> old(journal).rotation.Some? && now >= old(journal).rotation.value.expiresAt
      ensures outcome.Fine? ==> journal.rotation.None? || fingerprint(credential) != journal.rotation.value.fingerprint
      ensures outcome.Fine? && old(journal).rotation.Some? && fingerprint(credential) == old(journal).rotation.value.fingerprint ==>
        Some(journal) == Reconciled(old(journal), identity.runner, now)
      ensures orderly && outcome.Fine? && old(journal).rotation.Some? && fingerprint(credential) == old(journal).rotation.value.fingerprint ==>
        var r := old(journal).rotation.value;
        && journal.rotation.None? && journal.committed.Some?
        && Brings(journal.committed.value, r.runner, r.id, fingerprint(credential), r.issuedAt, r.expiresAt)
      ensures outcome.Fine? || outcome.Refused? || outcome.FileFault?
      ensures healthy ==> !outcome.FileFault?
    {
      clock := now;
      if journal.rotation.None? || fingerprint(credential) != journal.rotation.value.fingerprint {
        return Fine;
      }
      if orderly && now < journal.rotation.value.expiresAt {
        ReconciledIsBound(fingerprint, identity, journal, credential, now);
      }
      outcome := UpdateJournal(Reconciled(journal, identity.runner, now));
    }

    /** Starts again from whatever the crash left. */
    method Restart(d: Disk, now: int)
      requires Safe() && d in images && now >= clock
      modifies this
      ensures Safe() && clock == now && images == {d} && orderly == old(orderly)
      ensures running <==> Accepts(fingerprint, identity, d, now) && ValidJournal(d.journal)
      ensures orderly && Unexpired(d.journal, now) ==> running
    {
      if orderly && Unexpired(d.journal, now) {
        BoundIsAccepted(fingerprint, identity, d, now);
      }
      clock, images := now, {d};
      journal, credential := d.journal, d.credential;
      running := Accepts(fingerprint, identity, d, now) && ValidJournal(d.journal);
    }
  }

  datatype Event = Rotate(request: Request) | Authenticated | Crash

  /**
   * Any sequence of requests, authentications and crashes, at non-decreasing times.  As long as the
   * rotations follow each other in order, everything a crash may leave is a valid journal with a
   * credential that the next start accepts until something in it expires.
   */
  method Run(client: CredentialClient, events: seq<(Event, nat)>)
    requires client.Safe()
    modifies client
    ensures client.Safe()
    ensures client.orderly ==> forall d, t :: d in client.images && Unexpired(d.journal, t) ==>
      ValidJournal(d.journal) && Accepts(client.fingerprint, client.identity, d, t)
  {
    for i := 0 to |events|
      invariant client.Safe()
    {
      var (event, elapsed) := events[i];
      var now := client.clock + elapsed;
      if event.Crash? || !client.running {
        var d :| d in client.images;
        client.Restart(d, now);
      } else if event.Rotate? {
        var outcome := client.HandleRotation(event.request, now);
      } else {
        var outcome := client.ReconcileAfterAuthentication(now);
      }
    }
    forall d, t | client.orderly && d in client.images && Unexpired(d.journal, t)
      ensures Accepts(client.fingerprint, client.identity, d, t)
    {
      BoundIsAccepted(client.fingerprint, client.identity, d, t);
    }
  }

  /**
   * Recording checks no order.  When the enrolled credential is gone, a record beside a committed
   * credential is accepted, until something expires, exactly if the new rotation is a valid successor.
   */
  lemma RecordNeedsSuccessor(fingerprint: Text -> int, identity: Identity, c: Committed, q: Request, credential: Text, now: int)
    requires identity.runner != NO_RUNNER && c.runner == identity.runner && ValidRequest(fingerprint, q, now)
    requires ValidJournal(Journal(None, Some(c))) && fingerprint(credential) == c.fingerprint != identity.enrolled
    requires now < c.expiresAt
    ensures var j := Recorded(Journal(None, Some(c)), Requested(q, identity.runner));
      j.Some? && ValidJournal(j.value)
      && (Accepts(fingerprint, identity, Disk(j.value, credential), now) <==> ValidPredecessor(c, Requested(q, identity.runner)))
  {
  }

  /** In particular, recording a rotation once more after it was completed makes the next start refuse. */
  lemma RepeatedRotationRefused(fingerprint: Text -> int, identity: Identity, c: Committed, q: Request, credential: Text, now: int)
    requires identity.runner != NO_RUNNER && c.runner == identity.runner && ValidRequest(fingerprint, q, now)
    requires c == CommittedBy(Requested(q, identity.runner), identity.runner, c.persistedAt)
    requires ValidJournal(Journal(None, Some(c))) && fingerprint(credential) == c.fingerprint != identity.enrolled
    requires now < c.expiresAt
    ensures Accepts(fingerprint, identity, Disk(Journal(None, Some(c)), credential), now)
    ensures !Accepts(fingerprint, identity,
      Disk(Recorded(Journal(None, Some(c)), Requested(q, identity.runner)).value, credential), now)
  {
  }
}
