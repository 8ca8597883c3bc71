# Transporte PUCE: booking and catalogue core in Dafny

A model of the booking and catalogue logic of the Transporte PUCE ride-booking
application. The model covers the Express backend's seat-reservation
transaction, the available-trip listing, and user registration and login. It
also covers the React front end's `ProtectedRoute` access decision.

The database is an abstract value `Store.Db`. It has three parts:

- `trips`: the `viajes` rows, keyed by trip id. Each row keeps the departure
  date, the departure time and `asientos_disponibles`.
- `reservas`: the `reservas` rows, in insertion order.
- `users`: the `usuarios` rows, keyed by email.

Every handler is a pure function from a state and a request to a reply and a
new state. The booking handler locks the trip row with `SELECT ... FOR UPDATE`,
which serialises all bookings of one trip. So an execution is a sequence of
atomic `Reservas.Reserve` steps, and `Runs.Run` folds such a sequence.

A `Reservas.Fault` parameter names the database call that throws during a
booking, if one does: connect, BEGIN, the locking SELECT, the INSERT, the
UPDATE or the COMMIT. The handler builds its writes on a tentative copy of the
state. A rejection or a failing call returns the original state, which is
ROLLBACK.

JavaScript truthiness is modelled explicitly (`Values.TruthyNum`,
`Values.TruthyStr`). An absent field, `0` and `""` are all falsy, so
`estado: ""` falls back to `'confirmada'` and `rol: ""` falls back to
`'estudiante'`. In `ProtectedRoute`, an empty `allowedRoles` array is truthy,
so it admits nobody.

Facts about the code that shape the booking contracts:

- A reservation's status is the caller's `estado`, or `'confirmada'` when
  none is given (transporte-puce-backend/server.js:363).
- Seats are decremented whatever the `estado` is, so seat conservation
  (`Runs.RunConservesSeats`) counts every reservation of the trip.
- The handler looks up only the trip and never checks the student
  (transporte-puce-backend/server.js:344-352).
- Nothing bounds a trip's seats by its vehicle's capacity, so conservation is
  stated against the trip's initial seat count.

A user's reply has no password field. `fotoPerfilUrl == None` covers both an
absent `foto_perfil_url` key and a null one. So registration's reply (its
RETURNING list has no `foto_perfil_url` key, server.js:121) and login's reply
(`foto_perfil_url: null` for a new user, server.js:144,159) are the same value.
`Usuarios.RegisterThenLogin` relies on that identification.

## Model

| member | source | states |
|---|---|---|
| Reservas.Reserve | transporte-puce-backend/server.js:332-390 | 400 exactly when `viaje_id`, `estudiante_id`, `fecha_reserva` or `numero_asientos` is falsy or `numero_asientos` is at most 0. 404 exactly when the trip is unknown, 409 with the remaining count exactly when seats < requested (strict, so asking for all remaining seats succeeds and leaves 0). 500 when a database call throws before a decision is reached. 201 exactly when nothing throws and the seats suffice: then exactly one reservation with the request's trip, student, date and count is appended, its status is the caller's `estado` or `'confirmada'`, that trip's seats drop by exactly the count and stay non-negative, and no other trip and no user changes. Every non-201 reply leaves the whole state unchanged (all-or-nothing rollback) |
| Reservas.ReserveConservesSeats | transporte-puce-backend/server.js:354-370 | one booking step keeps a trip's available seats plus its reserved seats constant |
| Runs.Run | transporte-puce-backend/server.js:344-347 | bookings serialised by the row lock form a sequence of atomic steps, one reply per request |
| Runs.RunAppendsReservas | transporte-puce-backend/server.js:361-372 | over any sequence of requests, reservations are only appended, exactly the 201 reservations in order, and the set of trips and the users are untouched |
| Runs.FailedRunChangesNothing | transporte-puce-backend/server.js:335-359 | a sequence of requests none of which succeeds leaves the database unchanged |
| Runs.RunKeepsSeatsNonNegative | transporte-puce-backend/server.js:354-370 | if no trip starts with negative seats, none ever gets negative seats, whatever the requests |
| Runs.RunConservesSeats | transporte-puce-backend/server.js:354-370 | over any sequence of requests, each trip's seats plus the seats of its reservations is invariant |
| Runs.ConservationFromInitialSeats | transporte-puce-backend/server.js:354-370 | for a trip with no seats reserved yet (other trips may have bookings), seats plus reserved seats always equals the trip's initial seat count |
| Runs.OneSeatRequests | transporte-puce-backend/server.js:344-372 | with k seats left, fault-free one-seat requests on the trip succeed exactly for the first k and get 409 exactly from the (k+1)-th on; counts and final seats follow |
| Runs.KSeatsNRequests | transporte-puce-backend/server.js:344-372 | K seats and N > K one-seat requests give exactly K successes, N - K conflicts, and 0 seats at the end |
| Viajes.Insert | transporte-puce-backend/server.js:322-323 | inserting a trip into a list ordered by (fecha_salida, hora_salida) keeps it ordered, and its rows are exactly the old rows plus that row, counted with multiplicity |
| Viajes.InsertKeepsIdsDistinct | transporte-puce-backend/server.js:320-323 | inserting a trip not yet listed never duplicates a listed trip |
| Viajes.ListAvailable | transporte-puce-backend/server.js:290-330 | the listing holds exactly the trips with `asientos_disponibles > 0`, each once and with its current columns, ordered by departure date then departure time ascending |
| Viajes.ReserveAvailability | transporte-puce-backend/server.js:320-321 | a successful booking removes its trip from the available set exactly when it takes the last seat, and changes nothing else in that set |
| Viajes.BookedOutTripNotListed | transporte-puce-backend/server.js:320-321 | a trip booked down to 0 seats is absent from the listing |
| Usuarios.Register | transporte-puce-backend/server.js:102-132 | 400 exactly when nombre, apellido, email or contrasena is falsy. 409 exactly when the email is already registered, with nothing inserted. Otherwise exactly one user is added under that email, holding the given fields, the bcrypt hash and the given `rol` or `'estudiante'`, and the reply is that user without the password. Trips and reservations never change |
| Usuarios.Login | transporte-puce-backend/server.js:135-170 | 400 exactly when email or contrasena is falsy. The same 401 reply for an unknown email and for a wrong password. On success the reply is the stored user record without the `contrasena` column |
| Usuarios.RegisterThenLogin | transporte-puce-backend/server.js:116-163 | after a successful registration, logging in with the same email and password returns the record registration returned |
| Usuarios.RegisterTwiceRefused | transporte-puce-backend/server.js:110-114 | registering an already registered email again is refused with 409 and keeps the first record |
| ProtectedRoute.Guard | app_puce_transporte/src/components/ProtectedRoute.jsx:5-18 | no logged-in user always redirects to `/`. A user whose role is not in a supplied role list is redirected to `/dashboard`. With no role list every logged-in user gets the children. The children are rendered exactly when a user is logged in and either no list is given or the list contains the user's role |
| ProtectedRoute.EmptyRoleListAdmitsNobody | app_puce_transporte/src/components/ProtectedRoute.jsx:12-14 | an empty (but present) role list redirects every logged-in user to `/dashboard` |
| ProtectedRoute.MoreRolesKeepAccess | app_puce_transporte/src/components/ProtectedRoute.jsx:12-17 | adding roles to the allowed list never takes access away |
| ProtectedRoute.LoginPassesGuard | app_puce_transporte/src/components/ProtectedRoute.jsx:5-18 | the user record a successful login returns passes any guard that lists the user's role |

## Left out

- The PostgreSQL pool, connection release and the literal BEGIN/COMMIT/ROLLBACK calls. The transaction is one atomic transition, and the row lock appears only as the serialisation of requests in `Runs.Run`.
- Real concurrency and interleavings. The lock lives in the database. Registration's check-then-insert is also not atomic in the code (no lock, no unique constraint visible), and a sequential model cannot show that race.
- A failing ROLLBACK inside a rejection or catch path. The model assumes ROLLBACK succeeds.
- Database failures in registration and login (their 500 replies). Only the booking transaction has a fault parameter.
- bcrypt salt, hash and compare. Registration receives the produced hash as a parameter, and login receives the comparison as a `matches(plain, hash)` relation.
- Serial ids. A reservation's id is its position in `Db.reservas`. A new user's id is a parameter. `fecha_registro` (the database clock) is not modelled.
- JavaScript coercion of `numero_asientos` and of the ids (strings, fractions). They are modelled as integers.
- Date and time formats. `fecha_salida` is a day number and `hora_salida` is seconds after midnight, ordered as PostgreSQL orders DATE and TIME. The order among trips with equal departure keys is left open, as SQL leaves it.
- Viajes.ListAvailable: assumes every trip's `rutas` and `vehiculos` rows exist. The listing's inner joins (server.js:314-317) drop a trip whose route or vehicle row is missing. Routes and vehicles are not part of this model, so such a trip would be listed here.
- The columns the listing's joins add (route, vehicle and driver display fields), the `GET /api/reservas` report and `GET /api/usuarios`. They are display-only. The driver join is a LEFT JOIN and filters nothing.
- Profile-picture upload and deletion, multer, static file serving, CORS and the other Express middleware. They are file-system and HTTP plumbing.
- Vehicle capacity. Trip creation is not part of this model, and nothing checks seats against capacity.
- All other React components (forms, navigation, splash and video screens, the simulated booking in `Reserva.jsx`), `fetch` calls and date formatting.
