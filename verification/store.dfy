/**
 The database as an abstract state: the `viajes` rows keyed by trip id, the
 `reservas` rows in insertion order, and the `usuarios` rows keyed by email.
 Only the columns the modelled handlers read or write are kept.
 */
module Store {
  import opened Values

  type TripId = int
  type UserId = int

  /** A `viajes` row: departure date (a day number), departure time (seconds
      after midnight) and `asientos_disponibles`. */
  datatype Trip = Trip(fechaSalida: int, horaSalida: int, seats: int)

  /** A `reservas` row; its serial id is its position in `Db.reservas`. */
  datatype Reserva = Reserva(
    viajeId: TripId,
    estudianteId: UserId,
    fechaReserva: string,
    estado: string,
    numeroAsientos: int)

  /** A `usuarios` row, holding the bcrypt hash of the password. */
  datatype User = User(
    id: UserId,
    nombre: string,
    apellido: string,
    email: string,
    contrasenaHash: string,
    rol: string,
    telefono: Option<string>,
    fotoPerfilUrl: Option<string>)

  /** What the API hands back for a user: every column except the password. */
  datatype PublicUser = PublicUser(
    id: UserId,
    nombre: string,
    apellido: string,
    email: string,
    rol: string,
    telefono: Option<string>,
    fotoPerfilUrl: Option<string>)

  function Public(u: User): (r: PublicUser) {
    PublicUser(u.id, u.nombre, u.apellido, u.email, u.rol, u.telefono, u.fotoPerfilUrl)
  }

  datatype Db = Db(
    trips: map<TripId, Trip>,
    reservas: seq<Reserva>,
    users: map<string, User>)

  /** Sum of `numero_asientos` over the reservations of trip `t`. */
  function SeatsReserved(rs: seq<Reserva>, t: TripId): (r: int)
    decreases |rs|
  {
    if rs == [] then 0
    else
      var last := rs[|rs| - 1];
      SeatsReserved(rs[..|rs| - 1], t) + (if last.viajeId == t then last.numeroAsientos else 0)
  }

  /** Every trip has a non-negative seat count. */
  predicate SeatsNonNegative(trips: map<TripId, Trip>) {
    forall t :: t in trips ==> trips[t].seats >= 0
  }
}
