# PontoControl day journal — Dafny model

This project models the core of a single-worker time clock. It keeps one
**day journal** (`JornadaDiaria`) per calendar day. The journal has four
optional timestamp slots, filled in a fixed order: clock-in (`InicioJornada`),
lunch-out (`InicioAlmoco`), lunch-in (`FimAlmoco`) and clock-out (`FimJornada`).
It also holds a status (`StatusJornada`: `Pendente`, `EmAndamento`, `EmPausa`,
`Finalizada`) and a daily target in minutes (default 528, i.e. 8h48m).

The service has two operations:

- **Record a punch** (`MarcarPontoAsync`). The first empty slot takes the
  current instant, and the status follows. On a full journal the punch is
  rejected. A day with no stored journal starts from a fresh one.
- **Report the day's status** (`GetStatusDoDiaAsync`). This derives:
  - the worked time as `HH:MM:SS` text;
  - the projected departure (clock-in + target + lunch taken);
  - the stored status;
  - the labelled punch list.

Instants are whole seconds (`int`) and days are day numbers. Optional slots are
`Option<int>`. The thrown exception becomes a `Result` failure. The store is a
`map` from day to journal. The current day and instant are parameters.

Modules:

- `Wrappers` (`wrappers.dfy`): `Option` and `Result`.
- `Jornada` (`jornada.dfy`): the record, the status enum and its persisted
  names, the fresh journal, and the journal invariant `WellFormed`. The
  invariant says the set slots form a prefix, the status matches that prefix,
  and the timestamps are non-decreasing.
- `TimeText` (`timetext.dfy`): the worked-time text and a parser for it. The
  text is whole hours truncated toward zero (at least two digits), then the
  minutes and seconds components of the span, each in the `00` format. For a
  negative span, each component is truncated toward zero and carries its own
  minus sign, as C#'s `TimeSpan` components and `00` format do.
- `StatusDto` (`statusdto.dfy`): the status view and its defaults.
- `Punch` (`punch.dfy`): the punch state machine and runs of punches.
- `Accounting` (`accounting.dfy`): worked time, lunch length, projected
  departure, punch list and the status view.
- `Service` (`service.dfy`): both entry points over the day-keyed store.

## Model

| member | source | states |
|---|---|---|
| Jornada.Ordinal | PontoControl.Api/JornadaDiaria.cs:4-10 | every status is one of exactly four enum members, found at its declaration position |
| Jornada.FromOrdinal | PontoControl.Api/JornadaDiaria.cs:4-10 | exactly the values 0..3 name a status, and the status named by `n` has underlying value `n` |
| Jornada.DefaultStatus | PontoControl.Api/JornadaDiaria.cs:4-6 | the enum's zero value, which an unassigned status holds, is `Pendente` |
| Jornada.StatusNameRoundTrip | PontoControl.Api/JornadaDiaria.cs:33-35 | a status persisted by name reads back as itself, and only its own name reads back as it |
| Jornada.Nova | PontoControl.Api/JornadaDiaria.cs:12-40 | a fresh journal has the given date, all four slots unset, status `Pendente` (value 0), target 528 minutes, and satisfies the journal invariant |
| TimeText.Pad2 | PontoControl.Api/Services/JornadaService.cs:120 | the `00` format of a non-negative number has at least two digits, exactly two below 100, no leading zero from 10 on (so no padding beyond two digits), and reads back as the number |
| TimeText.FormatParseRoundTrip | PontoControl.Api/Services/JornadaService.cs:120 | the worked-time text of a non-negative span is hours (two or more digits), minutes and seconds in 00..59, and re-parses to the same span |
| TimeText.FormatNegativeRejected | PontoControl.Api/Services/JornadaService.cs:120 | the text of a negative span carries a minus sign where a digit or colon is expected, so it never parses |
| TimeText.FormatParseIff | PontoControl.Api/Services/JornadaService.cs:120 | the worked-time text parses back if and only if the span is non-negative |
| TimeText.FormatInjective | PontoControl.Api/Services/JornadaService.cs:120 | distinct non-negative spans print differently |
| TimeText.FormatZero | PontoControl.Api/DTO/JornadaStatusDto.cs:4 | a zero span prints as the DTO's default worked-time text "00:00:00" |
| StatusDto.Padrao | PontoControl.Api/DTO/JornadaStatusDto.cs:1-8 | DTO defaults: empty message, worked-time text that reads as zero seconds, no projected departure, status `Pendente`, empty punch list |
| Punch.MarcarPonto | PontoControl.Api/Services/JornadaService.cs:24-57 | fails exactly when all four slots are set; otherwise the first unset slot becomes `agora`, the status is the one for that slot, and other slots, date and target are unchanged; a missing journal counts as a fresh one for the day; the slot-filling if-chain itself is `Punch.Registrar` |
| Punch.MarcarSobreJornada | PontoControl.Api/Services/JornadaService.cs:21-57 | a punch on the stored journal is the slot-filling step on that journal, and with none stored it is the step on a fresh journal for the day; runs of punches (`Punch.Replay`) are built from that step |
| Punch.PrimeiraMarcacao | PontoControl.Api/Services/JornadaService.cs:24-36 | the first punch of a day with no journal sets only the clock-in, on a journal for that day with the default target, with status `EmAndamento` |
| Punch.MarcarKeepsShape | PontoControl.Api/Services/JornadaService.cs:32-57 | on a journal with a prefix of slots set and the matching status, a punch succeeds iff a slot is left, appends `agora` to the set timestamps and keeps that shape |
| Punch.MarcarKeepsWellFormed | PontoControl.Api/Services/JornadaService.cs:32-51 | with a clock that does not run backwards, a punch preserves the invariant: prefix, status mapping, non-decreasing timestamps |
| Punch.ReplayAppends | PontoControl.Api/Services/JornadaService.cs:32-57 | a run of punches succeeds iff it fits in the slots left; it then appends its instants in order and keeps date and target |
| Punch.ReplayKeepsWellFormed | PontoControl.Api/Services/JornadaService.cs:32-51 | a run of punches at non-decreasing instants preserves the journal invariant |
| Punch.DiaCompleto | PontoControl.Api/Services/JornadaService.cs:32-51 | on a fresh journal, the n-th of up to four punches sets the n-th slot and leaves the later ones unset; status runs `EmAndamento`, `EmPausa`, `EmAndamento`, `Finalizada` |
| Punch.QuintaMarcacaoFalha | PontoControl.Api/Services/JornadaService.cs:52-57 | more than four punches on a fresh journal end in the "journal complete" error, whose message is "Todas as 4 marcações do dia já foram realizadas." |
| Accounting.TempoTrabalhadoRelogio | PontoControl.Api/Services/JornadaService.cs:86-98 | worked time grows second for second with `agora` exactly while lunch has ended and the day is open; otherwise it does not depend on `agora` (frozen at lunch, after clock-out) |
| Accounting.TempoPresencaMenosAlmoco | PontoControl.Api/Services/JornadaService.cs:86-98 | on a punched journal: zero before lunch starts, afterwards time since clock-in minus time at lunch, always between zero and time since clock-in |
| Accounting.TempoDeAlmoco | PontoControl.Api/Services/JornadaService.cs:103-104 | lunch length is never negative; it is lunch-in minus lunch-out (clamped) when both are set, and zero while lunch-in is unset |
| Accounting.AlmocoFixo | PontoControl.Api/Services/JornadaService.cs:100-104 | on a punched journal lunch length does not depend on `agora`: lunch-in minus lunch-out once both are set, zero before |
| Accounting.PrevisaoSaida | PontoControl.Api/Services/JornadaService.cs:100-108 | projected departure exists iff clock-in is set and is never earlier than clock-in plus the target |
| Accounting.SaidaPrevistaExata | PontoControl.Api/Services/JornadaService.cs:100-108 | on a punched journal, the projected departure is absent before clock-in and otherwise exactly clock-in + target minutes + lunch, lunch being lunch-in minus lunch-out once it is set and zero before |
| Accounting.MetaCumpridaNaSaidaPrevista | PontoControl.Api/Services/JornadaService.cs:86-108 | after lunch, worked time reaches the target iff the end of the day (clock-out, or `agora`) has reached the projected departure |
| Accounting.Marcacoes | PontoControl.Api/Services/JornadaService.cs:111-115 | the punch list equals a walk over the slots in fixed order keeping one labelled entry per set slot; its instants are exactly the set timestamps |
| Accounting.MarcacoesEmOrdem | PontoControl.Api/Services/JornadaService.cs:111-115 | for prefix-filled journals, entry n carries the n-th label ("Entrada 1", "Saída Almoço", "Entrada Almoço", "Saída Final") and the n-th timestamp |
| Accounting.HoraLocal | PontoControl.Api/Services/JornadaService.cs:112-115 | the local clock text of an instant is eight characters and reads back as the second of the local day |
| Accounting.Exibir | PontoControl.Api/Services/JornadaService.cs:112-115 | a displayed entry is its label, then ": ", then the entry's local clock text, which reads back as its local second of day |
| Accounting.StatusDoDia | PontoControl.Api/Services/JornadaService.cs:71-124 | no journal or no clock-in gives the DTO defaults with message "Nenhuma jornada iniciada hoje."; otherwise: status message, stored status, projected departure present, the punch list, and the worked-time text of the worked time, which parses back to the worked time iff it is non-negative |
| Accounting.SoEntrada | PontoControl.Api/Services/JornadaService.cs:86-98 | a day with only the clock-in reports "00:00:00", status `EmAndamento` and one "Entrada 1" entry |
| Accounting.ExemploTarde | PontoControl.Api/Services/JornadaService.cs:86-120 | clock-in 08:00, lunch 12:00-13:00, asked at 15:00: "06:00:00" worked and departure 17:48 |
| Service.Marcar | PontoControl.Api/Services/JornadaService.cs:17-63 | a punch fails iff the state machine fails, then nothing is written; on success reading today back gives the returned journal and other days are untouched |
| Service.StatusHoje | PontoControl.Api/Services/JornadaService.cs:66-74 | with nothing stored for today the view is the DTO with every field at its default except the message "Nenhuma jornada iniciada hoje."; otherwise it is the status view of the stored journal |
| Service.MarcarKeepsStoreOk | PontoControl.Api/Services/JornadaService.cs:17-63 | with a clock that does not run backwards, punching keeps every stored journal filed under its date and well formed |
| Service.StatusAfterMarcar | PontoControl.Api/Services/JornadaService.cs:66-124 | right after a punch, today's view reports the stored status and one entry per punch so far |

## Left out

- MongoDB access is not modelled: client setup, collection lookup, `FirstOrDefaultAsync`, `ReplaceOneAsync` and `PontoDatabaseSettings`. The store is a map from day to journal.
- The document `Id` is not modelled. `JornadaService` upserts by `Id`, while the model replaces the journal under its day. The model assumes each stored journal carries its own `Id`. The code never sets one, and the first punch of a day upserts a fresh journal whose `Id` is null (`JornadaService.cs:26`, `:60-61`). Whether that filter can match a journal stored for another day depends on the Mongo driver, which is not modelled. So `Service.Marcar`'s "other days are untouched" holds only under this assumption.
- Wall-clock reads become the parameters `hoje` and `agora`. `JornadaService` reads the clock several times per call; one `agora` stands for all of them. The reads at lines 19 and 29 are separate, so the model keeps `hoje` and `agora` independent.
- Lunch length has one place where `JornadaService` reads the clock twice (line 103). There both fallbacks give a difference of zero or a few ticks below it, which the clamp turns into zero. The model's single `agora` gives the same zero.
- Time-zone conversion (`ToLocalTime`) is a fixed offset parameter in `Accounting.HoraLocal`. Daylight-saving rules are not modelled.
- The DTO keeps the projected departure as a UTC instant.
- The DTO keeps each punch entry as a (label, instant) pair. The display text is `Accounting.Exibir`.
- Sub-second ticks are not modelled. All arithmetic is in whole seconds.
- Fixed-width integers are not modelled. The 32-bit range of `(int)TotalHours` and of the target minutes, and the `DateTime` range, are assumed not to overflow. The floating-point `TotalHours` is modelled as exact truncating division.
- The HTTP layer (route registration, mapping errors to 400 responses) is not modelled.
- The desktop client and its reminder notifications are not modelled.
- Concurrency is not modelled. The C# service's read-modify-write has no guard, so two simultaneous punches could race; the model is sequential.
- Accounting.TempoTrabalhado carries no contract of its own. Its behaviour is stated by `TempoTrabalhadoRelogio`, `TempoPresencaMenosAlmoco`, `MetaCumpridaNaSaidaPrevista` and `SoEntrada`.
- Worked time is zero while only the clock-in is set; the morning is not counted live. This is how the C# service behaves, and the model keeps it.
- Reading a persisted status name back is the database driver's job and is not modelled. `Jornada.ParseStatus` is a reference reader over the four names; the second half of `Jornada.StatusNameRoundTrip` is a fact about that reader, and only the first half (each name reads back as its own status) stands for the stored string of `JornadaDiaria.cs:34`.
