/**
 Registration (`POST /api/usuarios/registro`) and login
 (`POST /api/usuarios/login`) as decisions over the `usuarios` table.
 bcrypt is abstract: registration receives the hash bcrypt produced, and login
 receives bcrypt's comparison as the relation `matches(plain, hash)`.
 */
module Usuarios {
  import opened Values
  import opened Store

  datatype RegistroRequest = RegistroRequest(
    nombre: Option<string>,
    apellido: Option<string>,
    email: Option<string>,
    contrasena: Option<string>,
    rol: Option<string>,
    telefono: Option<string>)

  datatype RegistroOutcome =
    | MissingFields              // 400
    | EmailTaken                 // 409
    | Registered(usuario: PublicUser) // 201
  {
    function Status(): int {
      match this
      case MissingFields => 400
      case EmailTaken => 409
      case Registered(_) => 201
    }
  }

  datatype RegistroReply = RegistroReply(outcome: RegistroOutcome, db: Db)

  const DefaultRol: string := "estudiante"

  /** nombre, apellido, email and contrasena are all truthy. */
  predicate HasRequiredFields(req: RegistroRequest) {
    TruthyStr(req.nombre) && TruthyStr(req.apellido) && TruthyStr(req.email) && TruthyStr(req.contrasena)
  }

  /** Register a user. `hashed` is bcrypt's hash of `contrasena` and `newId`
      the id the table's serial column hands out. */
  function Register(db: Db, req: RegistroRequest, hashed: string, newId: UserId): (r: RegistroReply)
    ensures r.db.trips == db.trips && r.db.reservas == db.reservas
    ensures !r.outcome.Registered? ==> r.db == db
    ensures r.outcome == MissingFields <==> !HasRequiredFields(req)
    ensures r.outcome == EmailTaken <==> HasRequiredFields(req) && req.email.value in db.users
    ensures r.outcome.Registered? <==> HasRequiredFields(req) && req.email.value !in db.users
    ensures r.outcome.Registered? ==>
              var email := req.email.value;
              && email in r.db.users
              && r.db.users.Keys == db.users.Keys + {email}
              && |r.db.users| == |db.users| + 1
              && (forall e :: e in db.users ==> r.db.users[e] == db.users[e])
              && r.db.users[email].email == email
              && r.db.users[email].nombre == req.nombre.value
              && r.db.users[email].apellido == req.apellido.value
              && r.db.users[email].contrasenaHash == hashed
              && r.db.users[email].telefono == req.telefono
              && r.db.users[email].id == newId
              && (TruthyStr(req.rol) ==> r.db.users[email].rol == req.rol.value)
              && (!TruthyStr(req.rol) ==> r.db.users[email].rol == "estudiante")
              && r.outcome.usuario == Public(r.db.users[email])
  {
    if !HasRequiredFields(req) then
      RegistroReply(MissingFields, db)
    else if req.email.value in db.users then
      RegistroReply(EmailTaken, db)
    else
      var u := User(newId, req.nombre.value, req.apellido.value, req.email.value, hashed,
                    OrElse(req.rol, DefaultRol), req.telefono, None);
      RegistroReply(Registered(Public(u)), db.(users := db.users[req.email.value := u]))
  }

  datatype LoginRequest = LoginRequest(email: Option<string>, contrasena: Option<string>)

  datatype LoginOutcome =
    | MissingCredentials         // 400
    | InvalidCredentials         // 401, one reply for unknown email and wrong password
    | LoggedIn(usuario: PublicUser) // 200, the row without its password
  {
    function Status(): int {
      match this
      case MissingCredentials => 400
      case InvalidCredentials => 401
      case LoggedIn(_) => 200
    }
  }

  /** Log in; reads the database and changes nothing. */
  function Login(db: Db, req: LoginRequest, matches: (string, string) -> bool): (r: LoginOutcome)
    ensures r == MissingCredentials <==> !TruthyStr(req.email) || !TruthyStr(req.contrasena)
    ensures r == InvalidCredentials <==>
              && TruthyStr(req.email) && TruthyStr(req.contrasena)
              && (req.email.value !in db.users
                  || !matches(req.contrasena.value, db.users[req.email.value].contrasenaHash))
    ensures r.LoggedIn? ==>
              && req.email.value in db.users
              && matches(req.contrasena.value, db.users[req.email.value].contrasenaHash)
              && r.usuario == Public(db.users[req.email.value])
  {
    if !TruthyStr(req.email) || !TruthyStr(req.contrasena) then
      MissingCredentials
    else if req.email.value !in db.users then
      InvalidCredentials
    else
      var user := db.users[req.email.value];
      if !matches(req.contrasena.value, user.contrasenaHash) then
        InvalidCredentials
      else
        LoggedIn(Public(user))
  }

  /** Round trip: once registered, the same email and password log in and
      return the record registration returned (when bcrypt's comparison
      accepts the password against the hash it produced). */
  lemma RegisterThenLogin(db: Db, req: RegistroRequest, hashed: string, newId: UserId,
                          matches: (string, string) -> bool)
    requires Register(db, req, hashed, newId).outcome.Registered?
    requires matches(req.contrasena.value, hashed)
    ensures var r := Register(db, req, hashed, newId);
            Login(r.db, LoginRequest(req.email, req.contrasena), matches) == LoggedIn(r.outcome.usuario)
  {
  }

  /** A second registration with an email already taken is refused and the
      first user's record is kept. */
  lemma RegisterTwiceRefused(db: Db, first: RegistroRequest, second: RegistroRequest,
                             hashed1: string, hashed2: string, id1: UserId, id2: UserId)
    requires Register(db, first, hashed1, id1).outcome.Registered?
    requires HasRequiredFields(second) && second.email == first.email
    ensures var r1 := Register(db, first, hashed1, id1);
            var r2 := Register(r1.db, second, hashed2, id2);
            r2.outcome == EmailTaken && r2.db == r1.db
  {
  }
}
