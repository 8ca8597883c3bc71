/**
 The seat-reservation handler (`POST /api/reservas`). The `FOR UPDATE` row
 lock serialises requests on one trip, so each request is one atomic step
 from a database state to a reply and the next state.
 */
module Reservas {
  import opened Values
  import opened Store

  datatype ReservaRequest = ReservaRequest(
    viajeId: Option<int>,
    estudianteId: Option<int>,
    fechaReserva: Option<string>,
    estado: Option<string>,
    numeroAsientos: Option<int>)

  /** The database calls of the transaction, in the order they are issued. */
  datatype Stage = Connect | Begin | LockTrip | InsertReserva | UpdateSeats | Commit

  /** Which database call, if any, throws during this request. */
  datatype Fault = NoFault | FailsAt(stage: Stage)

  datatype ReservaOutcome =
    | Invalid                        // 400
    | TripNotFound                   // 404
    | NotEnoughSeats(remaining: int) // 409, the message reports `remaining`
    | Created(reserva: Reserva)      // 201
    | ServerError                    // 500, after ROLLBACK
  {
    function Status(): int {
      match this
      case Invalid => 400
      case TripNotFound => 404
      case NotEnoughSeats(_) => 409
      case Created(_) => 201
      case ServerError => 500
    }
  }

  datatype Reply = Reply(outcome: ReservaOutcome, db: Db)

  const DefaultEstado: string := "confirmada"

  /** The request passes the body check: every required field is truthy and
      `numero_asientos` is positive. */
  predicate WellFormed(req: ReservaRequest) {
    && TruthyNum(req.estudianteId)
    && TruthyNum(req.viajeId)
    && TruthyStr(req.fechaReserva)
    && TruthyNum(req.numeroAsientos)
    && req.numeroAsientos.value > 0
  }

  /** The transaction gets as far as holding the trip's row lock. */
  predicate LockAcquired(fault: Fault) {
    fault != FailsAt(Connect) && fault != FailsAt(Begin) && fault != FailsAt(LockTrip)
  }

  /** The trip exists and has at least the requested number of seats left. */
  predicate Bookable(db: Db, req: ReservaRequest)
    requires WellFormed(req)
  {
    req.viajeId.value in db.trips && req.numeroAsientos.value <= db.trips[req.viajeId.value].seats
  }

  /** The reservation row the handler inserts for a well-formed request. */
  function NewReserva(req: ReservaRequest): (r: Reserva)
    requires WellFormed(req)
  {
    Reserva(req.viajeId.value, req.estudianteId.value, req.fechaReserva.value,
            OrElse(req.estado, DefaultEstado), req.numeroAsientos.value)
  }

  /** One booking request. Writes happen on a tentative copy of the state that
      only COMMIT publishes; a failing call or a rejection returns `db` itself. */
  function Reserve(db: Db, req: ReservaRequest, fault: Fault): (r: Reply)
    ensures r.db.users == db.users
    // Failures change nothing.
    ensures !r.outcome.Created? ==> r.db == db
    ensures r.outcome == Invalid <==> !WellFormed(req)
    ensures r.outcome == ServerError <==>
              && WellFormed(req) && fault != NoFault
              && (!LockAcquired(fault) || Bookable(db, req))
    ensures r.outcome == TripNotFound <==>
              WellFormed(req) && LockAcquired(fault) && req.viajeId.value !in db.trips
    ensures r.outcome.NotEnoughSeats? <==>
              && WellFormed(req) && LockAcquired(fault) && req.viajeId.value in db.trips
              && db.trips[req.viajeId.value].seats < req.numeroAsientos.value
    ensures r.outcome.NotEnoughSeats? ==>
              r.outcome.remaining == db.trips[req.viajeId.value].seats
    ensures r.outcome.Created? <==>
              WellFormed(req) && fault == NoFault && Bookable(db, req)
    ensures r.outcome.Created? ==>
              var t := req.viajeId.value;
              var n := req.numeroAsientos.value;
              && r.outcome.reserva.viajeId == t
              && r.outcome.reserva.estudianteId == req.estudianteId.value
              && r.outcome.reserva.fechaReserva == req.fechaReserva.value
              && r.outcome.reserva.numeroAsientos == n
              && (TruthyStr(req.estado) ==> r.outcome.reserva.estado == req.estado.value)
              && (!TruthyStr(req.estado) ==> r.outcome.reserva.estado == "confirmada")
              && r.db.reservas == db.reservas + [r.outcome.reserva]
              && r.db.trips.Keys == db.trips.Keys
              && r.db.trips[t] == db.trips[t].(seats := db.trips[t].seats - n)
              && r.db.trips[t].seats >= 0
              && (forall u :: u in db.trips && u != t ==> r.db.trips[u] == db.trips[u])
  {
    if !WellFormed(req) then
      Reply(Invalid, db)
    else if !LockAcquired(fault) then
      Reply(ServerError, db)
    else
      var t := req.viajeId.value;
      var n := req.numeroAsientos.value;
      if t !in db.trips then
        Reply(TripNotFound, db)
      else
        var available := db.trips[t].seats;
        if available < n then
          Reply(NotEnoughSeats(available), db)
        else
          var reserva := NewReserva(req);
          var inserted := db.(reservas := db.reservas + [reserva]);
          var updated := inserted.(trips := inserted.trips[t := inserted.trips[t].(seats := available - n)]);
          match fault
          case NoFault => Reply(Created(reserva), updated)
          // The lock is held, so the call that threw is the INSERT, the UPDATE
          // or the COMMIT: ROLLBACK discards both writes.
          case FailsAt(_) => Reply(ServerError, db)
  }

  /** A single step keeps every trip's seats plus its reserved seats constant. */
  lemma ReserveConservesSeats(db: Db, req: ReservaRequest, fault: Fault, t: TripId)
    requires t in db.trips
    ensures var r := Reserve(db, req, fault);
            t in r.db.trips
            && r.db.trips[t].seats + SeatsReserved(r.db.reservas, t)
               == db.trips[t].seats + SeatsReserved(db.reservas, t)
  {
  }
}
