/** The day's status view (GetStatusDoDia): worked time, lunch length, projected
    departure and the labelled punch list, all derived from the journal and the
    current instant. */
module Accounting {
  import opened Wrappers
  import opened Jornada
  import opened StatusDto
  import TimeText

  const MensagemSemJornada: string := "Nenhuma jornada iniciada hoje."
  const MensagemStatus: string := "Status da jornada atual."

  /** The label of each slot in the punch list, in slot order. */
  const Rotulos: seq<string> := ["Entrada 1", "Saída Almoço", "Entrada Almoço", "Saída Final"]

  const SecondsPerDay: int := 86400

  /** Worked seconds: the morning interval once lunch has started, plus the
      afternoon interval once lunch has ended, which runs up to `agora` until the
      day is closed. */
  function TempoTrabalhado(j: JornadaDiaria, agora: Instant): int {
    (if j.inicioJornada.Some? && j.inicioAlmoco.Some?
     then j.inicioAlmoco.value - j.inicioJornada.value else 0)
    + (if j.fimAlmoco.Some? then j.fimJornada.GetOr(agora) - j.fimAlmoco.value else 0)
  }

  /** Lunch seconds for the projection: lunch-in (falling back to lunch-out, then
      to `agora`) minus lunch-out (falling back to `agora`), clamped at zero. */
  function TempoDeAlmoco(j: JornadaDiaria, agora: Instant): (r: int)
    ensures r >= 0
    ensures j.inicioAlmoco.Some? && j.fimAlmoco.Some? ==>
      r == if j.fimAlmoco.value >= j.inicioAlmoco.value then j.fimAlmoco.value - j.inicioAlmoco.value else 0
    ensures j.fimAlmoco.None? ==> r == 0
    ensures j.inicioAlmoco.None? && j.fimAlmoco.Some? ==>
      r == if j.fimAlmoco.value >= agora then j.fimAlmoco.value - agora else 0
  {
    var d := j.fimAlmoco.GetOr(j.inicioAlmoco.GetOr(agora)) - j.inicioAlmoco.GetOr(agora);
    if d < 0 then 0 else d
  }

  /** Projected departure: clock-in plus the daily target plus the lunch taken;
      absent until the day is started, and never before clock-in plus target. */
  function PrevisaoSaida(j: JornadaDiaria, agora: Instant): (r: Option<Instant>)
    ensures r.Some? <==> j.inicioJornada.Some?
    ensures r.Some? ==> r.value >= j.inicioJornada.value + j.cargaHorariaMetaMinutos * 60
  {
    if j.inicioJornada.Some? then
      Some(j.inicioJornada.value + j.cargaHorariaMetaMinutos * 60 + TempoDeAlmoco(j, agora))
    else
      None
  }

  /** The punch-list entry of one slot: none if unset, else one labelled entry. */
  function Entrada(slot: Option<Instant>, rotulo: string): (r: seq<Marcacao>)
    ensures Instants(r) == slot.ToSeq()
  {
    if slot.Some? then [Marcacao(rotulo, slot.value)] else []
  }

  /** Reference punch list: walk the slots in order and keep one labelled entry
      per slot that is set. */
  function Present(slots: seq<Option<Instant>>, rotulos: seq<string>): seq<Marcacao>
    requires |slots| == |rotulos|
    decreases |slots|
  {
    if |slots| == 0 then [] else Entrada(slots[0], rotulos[0]) + Present(slots[1..], rotulos[1..])
  }

  /** The instants of a punch list, in order. */
  function Instants(ms: seq<Marcacao>): (r: seq<Instant>)
    ensures |r| == |ms|
    ensures forall i | 0 <= i < |ms| :: r[i] == ms[i].instante
  {
    seq(|ms|, i requires 0 <= i < |ms| => ms[i].instante)
  }

  lemma InstantsAppend(a: seq<Marcacao>, b: seq<Marcacao>)
    ensures Instants(a + b) == Instants(a) + Instants(b)
  {
  }

  /** The walk over four slots, written out. */
  lemma PresentFour(s: seq<Option<Instant>>, l: seq<string>)
    requires |s| == 4 && |l| == 4
    ensures Present(s, l)
      == Entrada(s[0], l[0]) + Entrada(s[1], l[1]) + Entrada(s[2], l[2]) + Entrada(s[3], l[3])
  {
    var s1, l1 := s[1..], l[1..];
    var s2, l2 := s1[1..], l1[1..];
    var s3, l3 := s2[1..], l2[1..];
    assert Present(s3[1..], l3[1..]) == [];
    assert Present(s3, l3) == Entrada(s[3], l[3]);
    assert Present(s2, l2) == Entrada(s[2], l[2]) + Present(s3, l3);
    assert Present(s1, l1) == Entrada(s[1], l[1]) + Present(s2, l2);
    assert Present(s, l) == Entrada(s[0], l[0]) + Present(s1, l1);
  }

  /** The punch list: one entry per set slot, in slot order, with the slot's label;
      its instants are exactly the set timestamps. */
  function Marcacoes(j: JornadaDiaria): (r: seq<Marcacao>)
    ensures r == Present(j.Slots(), Rotulos)
    ensures Instants(r) == Stamps(j)
  {
    var e0 := Entrada(j.inicioJornada, Rotulos[0]);
    var e1 := Entrada(j.inicioAlmoco, Rotulos[1]);
    var e2 := Entrada(j.fimAlmoco, Rotulos[2]);
    var e3 := Entrada(j.fimJornada, Rotulos[3]);
    PresentFour(j.Slots(), Rotulos);
    InstantsAppend(e0 + e1 + e2, e3);
    InstantsAppend(e0 + e1, e2);
    InstantsAppend(e0, e1);
    e0 + e1 + e2 + e3
  }

  /** The status view for the journal stored for today (if any) at `agora`. */
  function StatusDoDia(existente: Option<JornadaDiaria>, agora: Instant): (r: JornadaStatusDto)
    ensures existente.None? || existente.value.inicioJornada.None? ==>
      r == Padrao().(mensagem := MensagemSemJornada)
    ensures existente.Some? && existente.value.inicioJornada.Some? ==>
      var j := existente.value;
      && r.mensagem == MensagemStatus
      && r.statusAtual == j.status
      && r.horaSaidaPrevista.Some?
      && r.horaSaidaPrevista == PrevisaoSaida(j, agora)
      && r.marcacoes == Marcacoes(j)
      && r.tempoTrabalhadoHoje == TimeText.FormatDuration(TempoTrabalhado(j, agora))
      && TimeText.ParseDuration(r.tempoTrabalhadoHoje).Some? == (TempoTrabalhado(j, agora) >= 0)
      && (TempoTrabalhado(j, agora) >= 0 ==>
            TimeText.ParseDuration(r.tempoTrabalhadoHoje) == Some(TempoTrabalhado(j, agora)))
  {
    if existente.None? || existente.value.inicioJornada.None? then
      Padrao().(mensagem := MensagemSemJornada)
    else
      var j := existente.value;
      var tempo := TempoTrabalhado(j, agora);
      TimeText.FormatParseIff(tempo);
      JornadaStatusDto(MensagemStatus, TimeText.FormatDuration(tempo), PrevisaoSaida(j, agora), j.status, Marcacoes(j))
  }

  /** The clock text of an instant in a zone `fusoSegundos` ahead of UTC. */
  function HoraLocal(t: Instant, fusoSegundos: int): (s: string)
    ensures |s| == 8
    ensures TimeText.ParseDuration(s) == Some((t + fusoSegundos) % SecondsPerDay)
  {
    var d := (t + fusoSegundos) % SecondsPerDay;
    TimeText.FormatParseRoundTrip(d);
    TimeText.FormatDuration(d)
  }

  lemma SplitAt(a: string, b: string)
    ensures (a + b)[..|a|] == a && (a + b)[|a|..] == b
  {
  }

  /** How a punch entry is displayed: its label, a colon, then the local clock time. */
  function Exibir(m: Marcacao, fusoSegundos: int): (s: string)
    ensures |s| == |m.rotulo| + 10
    ensures s[..|m.rotulo| + 2] == m.rotulo + ": "
    ensures s[|m.rotulo| + 2..] == HoraLocal(m.instante, fusoSegundos)
  {
    var p, h := m.rotulo + ": ", HoraLocal(m.instante, fusoSegundos);
    SplitAt(p, h);
    p + h
  }

  /** Worked time moves with the clock exactly while the afternoon is open (lunch
      ended, day not closed), second for second; otherwise it does not depend on
      `agora` at all, so it is frozen during lunch and after clock-out. */
  lemma TempoTrabalhadoRelogio(j: JornadaDiaria, a1: Instant, a2: Instant)
    ensures j.fimAlmoco.Some? && j.fimJornada.None? ==>
      TempoTrabalhado(j, a2) - TempoTrabalhado(j, a1) == a2 - a1
    ensures !(j.fimAlmoco.Some? && j.fimJornada.None?) ==>
      TempoTrabalhado(j, a1) == TempoTrabalhado(j, a2)
  {
  }

  /** For a journal kept by punching with a clock that never runs backwards, worked
      time is zero until lunch starts; from then on it is the time on the clock
      since clock-in minus the time spent at lunch, so it lies between zero and the
      time since clock-in. */
  lemma TempoPresencaMenosAlmoco(j: JornadaDiaria, agora: Instant)
    requires WellFormed(j) && j.inicioJornada.Some?
    requires forall i | 0 <= i < |Stamps(j)| :: Stamps(j)[i] <= agora
    ensures j.inicioAlmoco.None? ==> TempoTrabalhado(j, agora) == 0
    ensures j.inicioAlmoco.Some? ==>
      TempoTrabalhado(j, agora)
        == (j.fimJornada.GetOr(agora) - j.inicioJornada.value)
           - (j.fimAlmoco.GetOr(agora) - j.inicioAlmoco.value)
    ensures 0 <= TempoTrabalhado(j, agora) <= j.fimJornada.GetOr(agora) - j.inicioJornada.value
  {
    SlotsInOrder(j);
    SlotsNotAfter(j, agora);
  }

  /** In a well-formed journal a set slot's predecessor is set and not later. */
  lemma SlotsInOrder(j: JornadaDiaria)
    requires WellFormed(j)
    ensures j.inicioAlmoco.Some? ==> j.inicioJornada.Some? && j.inicioJornada.value <= j.inicioAlmoco.value
    ensures j.fimAlmoco.Some? ==> j.inicioAlmoco.Some? && j.inicioAlmoco.value <= j.fimAlmoco.value
    ensures j.fimJornada.Some? ==> j.fimAlmoco.Some? && j.fimAlmoco.value <= j.fimJornada.value
  {
    StampsBySlot(j);
    var st := Stamps(j);
    if |st| >= 2 {
      assert st[0] <= st[1];
    }
    if |st| >= 3 {
      assert st[1] <= st[2];
    }
    if |st| == 4 {
      assert st[2] <= st[3];
    }
  }

  /** When no set timestamp is later than `agora`, each open interval's end
      (falling back to `agora`) is not before its start. */
  lemma SlotsNotAfter(j: JornadaDiaria, agora: Instant)
    requires WellFormed(j)
    requires forall i | 0 <= i < |Stamps(j)| :: Stamps(j)[i] <= agora
    ensures j.inicioJornada.Some? ==> j.inicioJornada.value <= j.fimJornada.GetOr(agora)
    ensures j.inicioAlmoco.Some? ==> j.inicioAlmoco.value <= j.fimAlmoco.GetOr(agora)
    ensures j.fimAlmoco.Some? ==> j.fimAlmoco.value <= j.fimJornada.GetOr(agora)
  {
    SlotsInOrder(j);
    StampsBySlot(j);
    var st := Stamps(j);
    if |st| == 1 {
      assert st[0] <= agora;
    } else if |st| == 2 {
      assert st[1] <= agora;
    } else if |st| == 3 {
      assert st[2] <= agora;
    }
  }

  /** For a journal kept by punching, lunch length does not depend on `agora`: it
      is lunch-in minus lunch-out once both are set and zero before that. */
  lemma AlmocoFixo(j: JornadaDiaria, a1: Instant, a2: Instant)
    requires WellFormed(j)
    ensures TempoDeAlmoco(j, a1) == TempoDeAlmoco(j, a2)
    ensures j.fimAlmoco.Some? ==>
      j.inicioAlmoco.Some? && TempoDeAlmoco(j, a1) == j.fimAlmoco.value - j.inicioAlmoco.value
    ensures j.fimAlmoco.None? ==> TempoDeAlmoco(j, a1) == 0
  {
    SlotsInOrder(j);
  }

  /** For a journal kept by punching, the projected departure is clock-in plus
      the target plus the lunch taken: lunch-in minus lunch-out once lunch is over,
      nothing before that. */
  lemma SaidaPrevistaExata(j: JornadaDiaria, agora: Instant)
    requires WellFormed(j)
    ensures j.inicioJornada.None? ==> PrevisaoSaida(j, agora).None?
    ensures j.inicioJornada.Some? ==>
      PrevisaoSaida(j, agora) == Some(j.inicioJornada.value + j.cargaHorariaMetaMinutos * 60
        + (if j.fimAlmoco.Some? then j.fimAlmoco.value - j.inicioAlmoco.value else 0))
  {
    AlmocoFixo(j, agora, agora);
  }

  /** Once lunch is over, the target is met exactly when the end of the day (the
      clock-out, or `agora` while still working) has reached the projected
      departure: lunch pushes the departure back by exactly the time it took. */
  lemma MetaCumpridaNaSaidaPrevista(j: JornadaDiaria, agora: Instant)
    requires WellFormed(j) && j.fimAlmoco.Some?
    requires forall i | 0 <= i < |Stamps(j)| :: Stamps(j)[i] <= agora
    ensures PrevisaoSaida(j, agora).Some?
    ensures TempoTrabalhado(j, agora) >= j.cargaHorariaMetaMinutos * 60
            <==> j.fimJornada.GetOr(agora) >= PrevisaoSaida(j, agora).value
  {
    SlotsInOrder(j);
    TempoPresencaMenosAlmoco(j, agora);
    AlmocoFixo(j, agora, agora);
  }

  /** For a journal whose set slots form a prefix, the punch list has one entry
      per set slot, the n-th entry carrying the n-th label and timestamp. */
  lemma MarcacoesEmOrdem(j: JornadaDiaria)
    requires FilledInOrder(j)
    ensures |Marcacoes(j)| == Filled(j)
    ensures forall i | 0 <= i < Filled(j) ::
      Marcacoes(j)[i] == Marcacao(Rotulos[i], j.Slots()[i].value)
  {
    PresentPrefix(j.Slots(), Rotulos, Filled(j));
  }

  /** Walking slots whose first `n` are set yields exactly `n` entries, pairing
      each of those slots with its label. */
  lemma {:induction false} PresentPrefix(slots: seq<Option<Instant>>, rotulos: seq<string>, n: nat)
    requires |slots| == |rotulos|
    requires forall i | 0 <= i < |slots| :: slots[i].Some? <==> i < n
    ensures |Present(slots, rotulos)| == if n <= |slots| then n else |slots|
    ensures forall i | 0 <= i < |Present(slots, rotulos)| ::
      Present(slots, rotulos)[i] == Marcacao(rotulos[i], slots[i].value)
    decreases |slots|
  {
    if |slots| > 0 {
      var m := if n > 0 then n - 1 else 0;
      assert forall i | 0 <= i < |slots[1..]| :: slots[1..][i] == slots[i + 1];
      PresentPrefix(slots[1..], rotulos[1..], m);
    }
  }

  /** A day with only the clock-in reports zero worked time, the in-progress
      status and a single punch entry. */
  lemma SoEntrada(j: JornadaDiaria, agora: Instant)
    requires Shaped(j) && Filled(j) == 1
    ensures var v := StatusDoDia(Some(j), agora);
      && v.tempoTrabalhadoHoje == "00:00:00"
      && v.statusAtual == EmAndamento
      && v.marcacoes == [Marcacao("Entrada 1", j.inicioJornada.value)]
  {
    PrefixStamps(j);
    MarcacoesEmOrdem(j);
    TimeText.FormatZero();
  }

  /** The afternoon of the journal used by `ExemploTarde`, at 15:00. */
  function Tarde(data: Day): JornadaDiaria {
    JornadaDiaria(data, Some(8 * 3600), Some(12 * 3600), Some(13 * 3600), None, EmAndamento, MetaPadraoMinutos)
  }

  /** Clock-in 08:00, lunch 12:00 to 13:00, asked at 15:00: six hours worked and
      departure projected at 17:48 (8h48m target plus one hour of lunch). */
  lemma ExemploTarde(data: Day)
    ensures var v := StatusDoDia(Some(Tarde(data)), 15 * 3600);
      && v.tempoTrabalhadoHoje == "06:00:00"
      && v.horaSaidaPrevista == Some(17 * 3600 + 48 * 60)
  {
    var j := Tarde(data);
    TardeTempo(j);
    assert PrevisaoSaida(j, 15 * 3600) == Some(17 * 3600 + 48 * 60);
  }

  lemma TardeTempo(j: JornadaDiaria)
    requires j == Tarde(j.data)
    ensures TimeText.FormatDuration(TempoTrabalhado(j, 15 * 3600)) == "06:00:00"
  {
    assert TempoTrabalhado(j, 15 * 3600) == 21600;
    TimeText.FormatSixHours();
  }
}
