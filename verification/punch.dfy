/** Recording a punch (MarcarPonto): the next empty slot of today's journal takes
    the current instant and the status follows. */
module Punch {
  import opened Wrappers
  import opened Jornada

  /** The one error a punch can raise: all four slots are already set. */
  datatype PunchError = JornadaCompleta {
    function Mensagem(): string {
      "Todas as 4 marcações do dia já foram realizadas."
    }
  }

  /** Slot `k` is the first unset slot of `slots`. */
  predicate FirstUnset(slots: seq<Option<Instant>>, k: int) {
    && 0 <= k < |slots|
    && slots[k].None?
    && forall i | 0 <= i < k :: slots[i].Some?
  }

  /** Punches at `agora` on the journal found for `hoje` (or a fresh one when none
      was found). On success the first unset slot holds `agora`, the status is the
      one for that slot, and the other slots, the date and the target are as
      before; a journal with all four slots set yields an error instead. */
  function MarcarPonto(existente: Option<JornadaDiaria>, hoje: Day, agora: Instant)
    : (r: Result<JornadaDiaria, PunchError>)
    ensures var b := existente.GetOr(Nova(hoje));
      r.Failure? <==> forall i | 0 <= i < SlotCount :: b.Slots()[i].Some?
    ensures var b := existente.GetOr(Nova(hoje));
      forall k | FirstUnset(b.Slots(), k) ::
        && r.Success?
        && r.value.Slots() == b.Slots()[k := Some(agora)]
        && r.value.status == SlotStatus[k]
        && r.value.data == b.data
        && r.value.cargaHorariaMetaMinutos == b.cargaHorariaMetaMinutos
  {
    var j := existente.GetOr(Nova(hoje));
    var s := j.Slots();
    assert s[0] == j.inicioJornada && s[1] == j.inicioAlmoco;
    assert s[2] == j.fimAlmoco && s[3] == j.fimJornada;
    assert j.inicioJornada.None? ==>
      forall k | FirstUnset(s, k) :: k == 0;
    assert j.inicioJornada.Some? && j.inicioAlmoco.None? ==>
      forall k | FirstUnset(s, k) :: k == 1;
    assert j.inicioJornada.Some? && j.inicioAlmoco.Some? && j.fimAlmoco.None? ==>
      forall k | FirstUnset(s, k) :: k == 2;
    assert j.inicioJornada.Some? && j.inicioAlmoco.Some? && j.fimAlmoco.Some? ==>
      forall k | FirstUnset(s, k) :: k == 3;
    Registrar(j, agora)
  }

  /** The punch itself, on the journal already chosen for the day: the first of
      the four slots still unset takes `agora`. */
  function Registrar(j: JornadaDiaria, agora: Instant): Result<JornadaDiaria, PunchError> {
    if j.inicioJornada.None? then
      Success(j.(inicioJornada := Some(agora), status := EmAndamento))
    else if j.inicioAlmoco.None? then
      Success(j.(inicioAlmoco := Some(agora), status := EmPausa))
    else if j.fimAlmoco.None? then
      Success(j.(fimAlmoco := Some(agora), status := EmAndamento))
    else if j.fimJornada.None? then
      Success(j.(fimJornada := Some(agora), status := Finalizada))
    else
      Failure(JornadaCompleta)
  }

  /** Punching a stored journal is `Registrar` on it; with nothing stored it is
      `Registrar` on a fresh journal for the day. */
  lemma MarcarSobreJornada(j: JornadaDiaria, hoje: Day, agora: Instant)
    ensures MarcarPonto(Some(j), hoje, agora) == Registrar(j, agora)
    ensures MarcarPonto(None, hoje, agora) == Registrar(Nova(hoje), agora)
  {
  }

  /** The first punch of a day with no stored journal sets only the clock-in, on a
      journal for that day with the default target, and starts the day. */
  lemma PrimeiraMarcacao(hoje: Day, agora: Instant)
    ensures var r := MarcarPonto(None, hoje, agora);
      && r.Success?
      && r.value.Slots() == [Some(agora), None, None, None]
      && r.value.status == EmAndamento
      && r.value.data == hoje
      && r.value.cargaHorariaMetaMinutos == MetaPadraoMinutos
  {
    assert FirstUnset(Nova(hoje).Slots(), 0);
  }

  /** A punch on a journal whose set slots form a prefix with the matching status
      succeeds exactly when a slot is left, appends `agora` to the set timestamps
      and keeps the shape. */
  lemma MarcarKeepsShape(j: JornadaDiaria, hoje: Day, agora: Instant)
    requires Shaped(j)
    ensures var r := MarcarPonto(Some(j), hoje, agora);
      && (r.Success? <==> Filled(j) < SlotCount)
      && (r.Success? ==> Shaped(r.value) && Stamps(r.value) == Stamps(j) + [agora])
  {
    var i, a, f := j.inicioJornada, j.inicioAlmoco, j.fimAlmoco;
    if i.None? {
      assert Stamps(j) == [];
    } else if a.None? {
      assert Stamps(j) == [i.value];
    } else if f.None? {
      assert Stamps(j) == [i.value, a.value];
    } else if j.fimJornada.None? {
      assert Stamps(j) == [i.value, a.value, f.value];
    }
  }

  /** With a clock that never runs backwards, a punch keeps the journal invariant:
      prefix of set slots, matching status, non-decreasing timestamps. */
  lemma MarcarKeepsWellFormed(j: JornadaDiaria, hoje: Day, agora: Instant)
    requires WellFormed(j)
    requires forall i | 0 <= i < |Stamps(j)| :: Stamps(j)[i] <= agora
    ensures var r := MarcarPonto(Some(j), hoje, agora);
      r.Success? ==> WellFormed(r.value)
  {
    MarcarKeepsShape(j, hoje, agora);
    SortedAppend(Stamps(j), agora);
  }

  /** Punches at each instant of `agoras` in turn, stopping at the first error.
      Each step punches the journal the previous step produced, which is what
      `MarcarPonto` does once that journal is stored for the day. */
  function Replay(j: JornadaDiaria, agoras: seq<Instant>): Result<JornadaDiaria, PunchError>
    decreases |agoras|
  {
    if |agoras| == 0 then Success(j)
    else
      match Registrar(j, agoras[0])
      case Failure(e) => Failure(e)
      case Success(j') => Replay(j', agoras[1..])
  }

  /** One punch of a run on a well-shaped journal with a slot left: the run goes on
      from the punched journal, which is the old one with `agora` appended. */
  lemma ReplayStep(j: JornadaDiaria, agoras: seq<Instant>) returns (j': JornadaDiaria)
    requires Shaped(j) && Filled(j) < SlotCount && |agoras| > 0
    ensures Replay(j, agoras) == Replay(j', agoras[1..])
    ensures ReplayedFrom(j, [agoras[0]], j')
  {
    MarcarKeepsShape(j, j.data, agoras[0]);
    j' := Registrar(j, agoras[0]).value;
  }

  /** A run that starts on a full journal fails at its first punch. */
  lemma ReplayFull(j: JornadaDiaria, agoras: seq<Instant>)
    requires Shaped(j) && Filled(j) == SlotCount && |agoras| > 0
    ensures Replay(j, agoras).Failure?
  {
    MarcarKeepsShape(j, j.data, agoras[0]);
  }

  /** A run of punches from a well-shaped journal succeeds exactly when it fits in
      the slots left; then its instants are appended to the set timestamps in
      order and the date and target are untouched. */
  lemma {:induction false} ReplayAppends(j: JornadaDiaria, agoras: seq<Instant>)
    requires Shaped(j)
    ensures Replay(j, agoras).Success? <==> Filled(j) + |agoras| <= SlotCount
    ensures Replay(j, agoras).Success? ==> ReplayedFrom(j, agoras, Replay(j, agoras).value)
    decreases |agoras|
  {
    if |agoras| == 0 {
      assert Stamps(j) + agoras == Stamps(j);
    } else if Filled(j) == SlotCount {
      ReplayFull(j, agoras);
    } else {
      var j' := ReplayStep(j, agoras);
      ReplayAppends(j', agoras[1..]);
      assert Stamps(j) + [agoras[0]] + agoras[1..] == Stamps(j) + agoras;
    }
  }

  /** `r` is what a run of punches at `agoras` leaves of `j`: well shaped, the
      instants appended to the set timestamps, date and target untouched. */
  predicate ReplayedFrom(j: JornadaDiaria, agoras: seq<Instant>, r: JornadaDiaria) {
    && Shaped(r)
    && Stamps(r) == Stamps(j) + agoras
    && r.data == j.data
    && r.cargaHorariaMetaMinutos == j.cargaHorariaMetaMinutos
  }

  /** With instants that never go backwards, a run of punches keeps the journal
      invariant. */
  lemma ReplayKeepsWellFormed(j: JornadaDiaria, agoras: seq<Instant>)
    requires WellFormed(j)
    requires Sorted(Stamps(j) + agoras)
    ensures var r := Replay(j, agoras);
      r.Success? ==> WellFormed(r.value)
  {
    ReplayAppends(j, agoras);
  }

  /** Up to four punches on a fresh journal: the n-th punch sets the n-th slot in
      the fixed order, the later slots stay unset and the status follows the
      sequence in-progress, on-break, in-progress, finished. */
  lemma DiaCompleto(hoje: Day, agoras: seq<Instant>)
    requires |agoras| <= SlotCount
    ensures var r := Replay(Nova(hoje), agoras);
      && r.Success?
      && (forall i | 0 <= i < SlotCount ::
            r.value.Slots()[i] == if i < |agoras| then Some(agoras[i]) else None)
      && r.value.status == StatusFor(|agoras|)
  {
    ReplayAppends(Nova(hoje), agoras);
    var r := Replay(Nova(hoje), agoras);
    assert Stamps(r.value) == agoras;
    PrefixStamps(r.value);
  }

  /** More punches than slots on a fresh journal always end in the error, with
      the message the caller is shown. */
  lemma QuintaMarcacaoFalha(hoje: Day, agoras: seq<Instant>)
    requires |agoras| > SlotCount
    ensures Replay(Nova(hoje), agoras) == Failure(JornadaCompleta)
    ensures Replay(Nova(hoje), agoras).error.Mensagem()
      == "Todas as 4 marcações do dia já foram realizadas."
  {
    ReplayAppends(Nova(hoje), agoras);
    var r := Replay(Nova(hoje), agoras);
    assert r.error.JornadaCompleta?;
  }
}
