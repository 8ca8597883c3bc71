/**
 The available-trip listing (`GET /api/viajes`): trips with at least one free
 seat, ordered by departure date and then departure time, ascending.
 */
module Viajes {
  import opened Store
  import opened Reservas

  /** A listed row: the trip id with the trip's columns. */
  datatype TripRow = TripRow(id: TripId, trip: Trip)

  /** `a` comes no later than `b` under `ORDER BY fecha_salida, hora_salida`. */
  predicate DepartsNoLater(a: Trip, b: Trip) {
    a.fechaSalida < b.fechaSalida || (a.fechaSalida == b.fechaSalida && a.horaSalida <= b.horaSalida)
  }

  predicate Sorted(rows: seq<TripRow>) {
    forall i, j :: 0 <= i < j < |rows| ==> DepartsNoLater(rows[i].trip, rows[j].trip)
  }

  predicate DistinctIds(rows: seq<TripRow>) {
    forall i, j :: 0 <= i < j < |rows| ==> rows[i].id != rows[j].id
  }

  function Ids(rows: seq<TripRow>): (r: set<TripId>) {
    set row | row in rows :: row.id
  }

  /** The ids the `WHERE asientos_disponibles > 0` clause keeps. */
  function AvailableIds(trips: map<TripId, Trip>): (r: set<TripId>) {
    set t | t in trips && trips[t].seats > 0
  }

  /** `rows` is a correct answer to the listing query over `trips`: each
      available trip exactly once, with its current columns, in departure order. */
  predicate IsAvailableListing(rows: seq<TripRow>, trips: map<TripId, Trip>) {
    && Sorted(rows)
    && DistinctIds(rows)
    && (forall row :: row in rows ==> row.id in trips && row.trip == trips[row.id])
    && Ids(rows) == AvailableIds(trips)
  }

  /** Insert `row` after every row that departs no later than it. */
  function Insert(rows: seq<TripRow>, row: TripRow): (r: seq<TripRow>)
    requires Sorted(rows)
    ensures Sorted(r)
    ensures |r| == |rows| + 1
    ensures forall x :: x in r <==> x in rows || x == row
    ensures multiset(r) == multiset(rows) + multiset{row}
  {
    if rows == [] then [row]
    else if DepartsNoLater(rows[0].trip, row.trip) then
      assert forall x :: x in rows <==> x == rows[0] || x in rows[1..];
      assert forall x :: x in rows[1..] ==> DepartsNoLater(rows[0].trip, x.trip);
      assert rows == [rows[0]] + rows[1..];
      [rows[0]] + Insert(rows[1..], row)
    else
      [row] + rows
  }

  lemma InsertIds(rows: seq<TripRow>, row: TripRow)
    requires Sorted(rows)
    ensures Ids(Insert(rows, row)) == Ids(rows) + {row.id}
  {
  }

  /** Inserting a row whose id is new keeps the ids distinct. */
  lemma {:induction false} InsertKeepsIdsDistinct(rows: seq<TripRow>, row: TripRow)
    requires Sorted(rows) && DistinctIds(rows) && row.id !in Ids(rows)
    ensures DistinctIds(Insert(rows, row))
  {
    if rows != [] && DepartsNoLater(rows[0].trip, row.trip) {
      var rest := rows[1..];
      assert forall x :: x in rest ==> x in rows;
      assert DistinctIds(rest);
      assert row.id !in Ids(rest);
      InsertKeepsIdsDistinct(rest, row);
      InsertIds(rest, row);
      assert rows[0] in rows;
      assert rows[0].id != row.id;
      assert rows[0].id !in Ids(rest);
    } else if rows != [] {
      assert forall i :: 0 <= i < |rows| ==> rows[i] in rows;
    }
  }

  lemma NonEmptyHasMember(s: set<TripId>)
    requires s != {}
    ensures exists t :: t in s
  {
    assert (forall t :: t !in s) ==> s == {};
  }

  method ListAvailable(trips: map<TripId, Trip>) returns (rows: seq<TripRow>)
    ensures IsAvailableListing(rows, trips)
  {
    rows := [];
    var pending := trips.Keys;
    while pending != {}
      invariant pending <= trips.Keys
      invariant Sorted(rows) && DistinctIds(rows)
      invariant forall row :: row in rows ==> row.id in trips && row.trip == trips[row.id]
      invariant Ids(rows) == AvailableIds(trips) - pending
      decreases pending
    {
      NonEmptyHasMember(pending);
      var t :| t in pending;
      if trips[t].seats > 0 {
        InsertIds(rows, TripRow(t, trips[t]));
        InsertKeepsIdsDistinct(rows, TripRow(t, trips[t]));
        rows := Insert(rows, TripRow(t, trips[t]));
        assert Ids(rows) == AvailableIds(trips) - (pending - {t});
      } else {
        assert t !in AvailableIds(trips);
        assert Ids(rows) == AvailableIds(trips) - (pending - {t});
      }
      pending := pending - {t};
    }
  }

  /** A successful booking removes the trip from the listing exactly when it
      takes the trip's last seats; no other trip enters or leaves. */
  lemma ReserveAvailability(db: Db, req: ReservaRequest, fault: Fault)
    requires Reserve(db, req, fault).outcome.Created?
    ensures var r := Reserve(db, req, fault);
            var t := req.viajeId.value;
            AvailableIds(r.db.trips)
              == if r.db.trips[t].seats == 0 then AvailableIds(db.trips) - {t} else AvailableIds(db.trips)
  {
  }

  /** A trip booked down to zero seats is absent from every later listing. */
  lemma BookedOutTripNotListed(db: Db, req: ReservaRequest, fault: Fault, rows: seq<TripRow>)
    requires Reserve(db, req, fault).outcome.Created?
    requires Reserve(db, req, fault).db.trips[req.viajeId.value].seats == 0
    requires IsAvailableListing(rows, Reserve(db, req, fault).db.trips)
    ensures forall i :: 0 <= i < |rows| ==> rows[i].id != req.viajeId.value
  {
    var r := Reserve(db, req, fault);
    ReserveAvailability(db, req, fault);
    forall i | 0 <= i < |rows|
      ensures rows[i].id != req.viajeId.value
    {
      assert rows[i] in rows;
      assert rows[i].id in Ids(rows);
    }
  }
}
