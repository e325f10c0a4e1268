# Time clock and registration handlers, modelled in Dafny

This project models the two handlers of the Flask backend in
`api/server-flask/server.py` that carry decisions of their own.

- **Punch sequencing** (`bater_ponto`). An employee punches the clock at a time of day. The
  handler looks the user up in the login table. It reads the day record of (user, today). It then
  creates the record with `hora_entrada1`, fills the next of `hora_saida1`, `hora_entrada2` and
  `hora_saida2`, or refuses the punch.
  - `punch_clock.dfy` (module `PunchClock`) holds that decision as the pure function `Decide`. It
    follows the handler's own tests. A column is "empty" by Python truthiness, so a NULL and a
    00:00 (a zero interval) both count as empty. The time to beat is the `max` over all non-null
    time columns. A stored record with no time at all makes `max` raise (`ServerError`).
  - The module also gives the declarative view of a record: `Punches`, the times punched so far in
    order. Its lemmas prove that on records satisfying the invariant the handler's tests compute
    exactly the declarative answer. The invariant is: `hora_entrada1` set, set columns contiguous,
    times strictly increasing.
  - `punch_ledger.dfy` (module `Ledger`) holds the tables as a class. `PunchLedger` has the login
    map and the map of day records keyed by (login id, day). `RegisterPunch` is one request. It
    keeps the invariant on every record and states the new table in terms of the old one.
- **Registration** (`cadastro`). `registration.dfy` (module `Registration`) does three things.
  - It writes out the e-mail pattern `^[a-zA-Z0-9_.+-]+@[a-zA-Z0-9-]+\.[a-zA-Z0-9-.]+$` as a
    recogniser over character classes. The recogniser is proved equal to the pattern read as a
    language.
  - It models Python's `re.match` reading of `$`, which also accepts a single trailing newline.
  - It models the handler's checks, in order: empty fields, e-mail shape, an existing row with
    the same user name or e-mail. `AccountTable.Register` appends exactly one row when they pass.
    It keeps user names and e-mails unique.

Times are minutes since midnight in `[0, 1440)`, the values `'%H:%M'` can produce. The day
(`CURDATE()`) is a parameter. The password hash is computed by the caller and passed in.

The code has four time columns and no balance or overtime computation.

## Model

| member | source | states |
|---|---|---|
| `PunchClock.MaxFilled` | api/server-flask/server.py:146 | the `max` over the non-null time columns: None exactly when no column is set; otherwise a value held by some column and at least every set column |
| `PunchClock.Decide` | api/server-flask/server.py:143-168 | for any stored row, well-formed or not: no record gives an INSERT of a record holding only `hora_entrada1 = t`. A server error happens exactly when a record exists with no time set (`max` of nothing). Refusal as out of order happens exactly when `t` is at most the `max`. A later `t` gives an UPDATE or "all punches used". An UPDATE writes `t` into a falsy column other than `hora_entrada1`, every earlier column of `hora_saida1`, `hora_entrada2`, `hora_saida2` is truthy, and nothing else changes. "All punches used" means all three are truthy |
| `PunchClock.Apply` | api/server-flask/server.py:166-170 | the stored record after the INSERT or UPDATE, or unchanged after a refusal. From no record it is the record holding only `t`. From no record or a well-formed one it is well-formed, and its punches are the old ones followed by `t` exactly when the punch is accepted, and exactly the old ones when it is refused |
| `PunchClock.MaxIsLastPunch` | api/server-flask/server.py:146 | on a well-formed record the `max` is defined and is the value of the last set column (the last punch) |
| `PunchClock.FalsyMeansEmpty` | api/server-flask/server.py:153-161 | on a well-formed record only `hora_entrada1` can hold 00:00. So the truthiness tests (`IsFalsy`: NULL or 00:00) on `hora_saida1`, `hora_entrada2` and `hora_saida2` are exactly NULL tests |
| `PunchClock.DecideOnWellFormed` | api/server-flask/server.py:145-168 | on a well-formed record: `t` not after the last punch is refused as out of order; a full day refuses later times as "all punches used"; otherwise the column right after the last set one receives `t` and the punches become the old ones followed by `t` |
| `PunchClock.AcceptedPunchAppends` | api/server-flask/server.py:145-170 | on a well-formed record (or no record): every accepted punch (INSERT or UPDATE) yields a well-formed record whose punches are the previous ones plus `t`. On well-formed input the `max` never raises |
| `PunchClock.UpdateFillsFirstEmpty` | api/server-flask/server.py:153-161 | on a well-formed record: an accepted punch fills a NULL column all of whose predecessors are set. That column becomes `t` and every other column is unchanged |
| `PunchClock.FullDayRejects` | api/server-flask/server.py:149-164 | on a well-formed record with all four columns set: a time not after `hora_saida2` is refused as out of order (that test comes first) and any later time as "all punches used" |
| `PunchClock.RunIncreasing` | api/server-flask/server.py:153-168 | from no record, up to four strictly increasing punches leave a record holding exactly those times, in column order |
| `PunchClock.NthPunchFillsSlotN` | api/server-flask/server.py:153-168 | with strictly increasing times, punch 0 creates the record and punch k (1 to 3) fills column k: `hora_saida1`, `hora_entrada2`, `hora_saida2` |
| `PunchClock.FifthPunchRejected` | api/server-flask/server.py:149-164 | after four accepted punches a fifth is refused whatever its time, and the record stays as it was |
| `Ledger.PunchLedger.RegisterPunch` | api/server-flask/server.py:126-183 | an unknown user gets "not found" and no table change. With no record for (user, day) the record `[t]` is created. A time not after the last punch is refused as out of order with no change. A full day refuses a later time with no change. Otherwise only the (user, day) record changes, gaining `t` in the next column. Every record stays well-formed |
| `Registration.MatchesPatternIff` | api/server-flask/server.py:70-71 | the character-class recogniser accepts exactly the strings that split into local part (`[a-zA-Z0-9_.+-]+`), `@`, label (`[a-zA-Z0-9-]+`), `.`, tail (`[a-zA-Z0-9-.]+`) |
| `Registration.ValidEmailShape` | api/server-flask/server.py:70-72 | every accepted e-mail has exactly one `@`, a non-empty part before it and a `.` after it |
| `Registration.IsValidEmail` | api/server-flask/server.py:70-71 | `re.match` with the final `$`: accepts exactly the strings of the pattern, and those followed by a single trailing newline |
| `Registration.Check` | api/server-flask/server.py:66-81 | missing field exactly when one of the four fields is empty. An invalid e-mail means the fields are filled and the e-mail fails the pattern. "Already exists" means the e-mail passes and some row shares the user name or the e-mail |
| `Registration.RegisteredIff` | api/server-flask/server.py:66-88 | a registration is accepted exactly when all four fields are non-empty, the e-mail is in the pattern (optionally followed by one newline) and no row has the same user name or the same e-mail, i.e. the duplicate query (`Taken`) finds no row |
| `Registration.RegisterKeepsUnique` | api/server-flask/server.py:77-88 | appending the row of an accepted registration keeps user names unique and e-mails unique across the table |
| `Registration.AccountTable.Register` | api/server-flask/server.py:53-98 | the outcome is the checks' verdict on the old table. On acceptance exactly one row (name, user, e-mail, password hash) is appended; otherwise the table is unchanged. Uniqueness is preserved |

## Left out

- HTTP routing, CORS, JSON request parsing and response building, and status codes. Outcomes are
  datatypes instead.
- Request fields are strings in the model. A missing JSON key raises. Non-string values are not
  modelled; the source treats them as follows:
  - In `cadastro`, a `null`, `false` or `0` in `nome`, `usuario` or `email` is falsy and gets
    the "fill in all fields" answer.
  - A non-string `senha` raises in the password hashing, before any check.
  - A truthy non-string `email` raises in `re.match`, after the empty-field check.
  - In `bater_ponto`, a non-string `usuario` is passed to the login query as it is.
- The MySQL connection, SQL text, `CURDATE()` and `commit`. The tables are maps and sequences in
  memory and the day is a parameter. A failed commit, which answers 500 in `bater_ponto` and is
  only printed in `cadastro`, is not modelled.
- Concurrent requests: each request is one sequential step, so read-decide-write is atomic here.
- `strptime` parsing of `'HH:MM'`: the model takes a minute of the day in `[0, 1440)`. The branch
  of line 146 that parses a string column value is not modelled, since the driver returns
  intervals for TIME columns.
- Password hashing (`generate_password_hash`) is a foreign call. Its result is a parameter of
  `Register`. `login` depends on `check_password_hash` and is not modelled.
- `home`, `get_usuarios` and `get_usuario` are plain reads with no logic. The commented-out update
  and delete handlers are not part of the program.
- The punch table query takes the newest of possibly several rows for (user, today). The model
  keeps one record per (login id, day), which is all the handler itself ever creates. The
  `usuario` column copied into a new punch row is not modelled.
- `Registration.Taken`: compares user names and e-mails by exact equality. The database compares
  them under its column collation, which may ignore case and trailing spaces.
- Ledger.PunchLedger.RegisterPunch: looks the user up by exact equality (`user in logins`).
  The database compares `l_usuario` under its column collation, which may ignore case and trailing
  spaces, so two names the model keeps apart can be the same login in the program.
- The login table is read-only here. How logins get into it is not part of this model.
