/**
 Sequences of booking requests. Because the row lock serialises requests on a
 trip, any execution is some sequence of atomic `Reserve` steps; these lemmas
 hold for every such sequence.
 */
module Runs {
  import opened Store
  import opened Reservas

  /** One request together with the database call (if any) that throws during it. */
  datatype Attempt = Attempt(req: ReservaRequest, fault: Fault)

  datatype Trace = Trace(outcomes: seq<ReservaOutcome>, db: Db)

  /** Serve the attempts one after another, starting from `db`. */
  function Run(db: Db, attempts: seq<Attempt>): (r: Trace)
    ensures |r.outcomes| == |attempts|
    decreases |attempts|
  {
    if attempts == [] then Trace([], db)
    else
      var first := Reserve(db, attempts[0].req, attempts[0].fault);
      var rest := Run(first.db, attempts[1..]);
      Trace([first.outcome] + rest.outcomes, rest.db)
  }

  /** The reservations created by a sequence of outcomes, in order. */
  function CreatedReservas(os: seq<ReservaOutcome>): (r: seq<Reserva>) {
    if os == [] then []
    else (if os[0].Created? then [os[0].reserva] else []) + CreatedReservas(os[1..])
  }

  function CountCreated(os: seq<ReservaOutcome>): (r: nat) {
    if os == [] then 0 else (if os[0].Created? then 1 else 0) + CountCreated(os[1..])
  }

  function CountConflicts(os: seq<ReservaOutcome>): (r: nat) {
    if os == [] then 0 else (if os[0].NotEnoughSeats? then 1 else 0) + CountConflicts(os[1..])
  }

  /** Reservations are only ever appended, one per 201 reply, and the user
      table and the set of trips are never touched. */
  lemma {:induction false} RunAppendsReservas(db: Db, attempts: seq<Attempt>)
    ensures var r := Run(db, attempts);
            && r.db.reservas == db.reservas + CreatedReservas(r.outcomes)
            && r.db.trips.Keys == db.trips.Keys
            && r.db.users == db.users
    decreases |attempts|
  {
    if attempts != [] {
      var first := Reserve(db, attempts[0].req, attempts[0].fault);
      RunAppendsReservas(first.db, attempts[1..]);
      var os := Run(db, attempts).outcomes;
      assert os[1..] == Run(first.db, attempts[1..]).outcomes;
    }
  }

  /** A run in which no request succeeds leaves the database as it was. */
  lemma {:induction false} FailedRunChangesNothing(db: Db, attempts: seq<Attempt>)
    requires forall i :: 0 <= i < |attempts| ==> !Run(db, attempts).outcomes[i].Created?
    ensures Run(db, attempts).db == db
    decreases |attempts|
  {
    if attempts != [] {
      var first := Reserve(db, attempts[0].req, attempts[0].fault);
      var os := Run(db, attempts).outcomes;
      assert !os[0].Created?;
      var rest := Run(first.db, attempts[1..]);
      assert forall i :: 0 <= i < |attempts[1..]| ==> rest.outcomes[i] == os[i + 1];
      FailedRunChangesNothing(first.db, attempts[1..]);
    }
  }

  /** No trip's seat count ever becomes negative. */
  lemma {:induction false} RunKeepsSeatsNonNegative(db: Db, attempts: seq<Attempt>)
    requires SeatsNonNegative(db.trips)
    ensures SeatsNonNegative(Run(db, attempts).db.trips)
    decreases |attempts|
  {
    if attempts != [] {
      var first := Reserve(db, attempts[0].req, attempts[0].fault);
      assert SeatsNonNegative(first.db.trips);
      RunKeepsSeatsNonNegative(first.db, attempts[1..]);
    }
  }

  /** For every trip, available seats plus seats held by its reservations is the
      same before and after any sequence of requests. */
  lemma {:induction false} RunConservesSeats(db: Db, attempts: seq<Attempt>, t: TripId)
    requires t in db.trips
    ensures var r := Run(db, attempts);
            t in r.db.trips
            && r.db.trips[t].seats + SeatsReserved(r.db.reservas, t)
               == db.trips[t].seats + SeatsReserved(db.reservas, t)
    decreases |attempts|
  {
    if attempts != [] {
      var first := Reserve(db, attempts[0].req, attempts[0].fault);
      ReserveConservesSeats(db, attempts[0].req, attempts[0].fault, t);
      RunConservesSeats(first.db, attempts[1..], t);
    }
  }

  /** Starting from a trip none of whose seats are reserved yet, seats plus reserved seats is
      always the trip's initial seat count. */
  lemma ConservationFromInitialSeats(db: Db, attempts: seq<Attempt>, t: TripId)
    requires t in db.trips && SeatsReserved(db.reservas, t) == 0
    ensures var r := Run(db, attempts);
            t in r.db.trips && r.db.trips[t].seats + SeatsReserved(r.db.reservas, t) == db.trips[t].seats
  {
    RunConservesSeats(db, attempts, t);
  }

  /** A well-formed, fault-free request for one seat on trip `t`. */
  predicate OneSeatOn(a: Attempt, t: TripId) {
    && a.fault == NoFault
    && WellFormed(a.req)
    && a.req.viajeId.value == t
    && a.req.numeroAsientos.value == 1
  }

  /** With k seats left, a series of one-seat requests is served in arrival
      order: the first k succeed, every later one gets 409. */
  lemma {:induction false} OneSeatRequests(db: Db, attempts: seq<Attempt>, t: TripId)
    requires t in db.trips && db.trips[t].seats >= 0
    requires forall i :: 0 <= i < |attempts| ==> OneSeatOn(attempts[i], t)
    ensures var r := Run(db, attempts);
            var k := db.trips[t].seats;
            && (forall i :: 0 <= i < |attempts| ==> (r.outcomes[i].Created? <==> i < k))
            && (forall i :: 0 <= i < |attempts| ==> (r.outcomes[i].NotEnoughSeats? <==> k <= i))
            && CountCreated(r.outcomes) == (if |attempts| < k then |attempts| else k)
            && CountConflicts(r.outcomes) == (if |attempts| < k then 0 else |attempts| - k)
            && t in r.db.trips
            && r.db.trips[t].seats == (if |attempts| < k then k - |attempts| else 0)
    decreases |attempts|
  {
    if attempts != [] {
      var first := Reserve(db, attempts[0].req, attempts[0].fault);
      var rest := Run(first.db, attempts[1..]);
      var os := Run(db, attempts).outcomes;
      assert os == [first.outcome] + rest.outcomes;
      assert os[1..] == rest.outcomes;
      OneSeatRequests(first.db, attempts[1..], t);
    }
  }

  /** K seats and N > K one-seat requests: exactly K successes, N - K
      conflicts, and the trip ends with no seats. */
  lemma KSeatsNRequests(db: Db, attempts: seq<Attempt>, t: TripId)
    requires t in db.trips && 0 <= db.trips[t].seats < |attempts|
    requires forall i :: 0 <= i < |attempts| ==> OneSeatOn(attempts[i], t)
    ensures var r := Run(db, attempts);
            && CountCreated(r.outcomes) == db.trips[t].seats
            && CountConflicts(r.outcomes) == |attempts| - db.trips[t].seats
            && t in r.db.trips && r.db.trips[t].seats == 0
  {
    OneSeatRequests(db, attempts, t);
  }
}
