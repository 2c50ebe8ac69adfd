/** The day journal (JornadaDiaria): one record per calendar day holding the four
    punch timestamps, the journal status and the daily target in minutes. */
module Jornada {
  import opened Wrappers

  /** Instants are whole seconds on a fixed UTC time line. */
  type Instant = int

  /** A calendar day, identified by its day number; the key of a journal. */
  type Day = int

  /** The journal status enum (StatusJornada), in declaration order. */
  datatype StatusJornada = Pendente | EmAndamento | EmPausa | Finalizada

  /** Every member of the enum, indexed by its underlying integer value. */
  const AllStatus: seq<StatusJornada> := [Pendente, EmAndamento, EmPausa, Finalizada]

  /** The underlying integer value of an enum member. */
  function Ordinal(s: StatusJornada): (n: nat)
    ensures n < |AllStatus| && AllStatus[n] == s
  {
    match s
    case Pendente => 0
    case EmAndamento => 1
    case EmPausa => 2
    case Finalizada => 3
  }

  /** The enum member with underlying value `n`, if there is one. */
  function FromOrdinal(n: int): (r: Option<StatusJornada>)
    ensures r.Some? <==> 0 <= n < 4
    ensures r.Some? ==> Ordinal(r.value) == n
  {
    if 0 <= n < |AllStatus| then Some(AllStatus[n]) else None
  }

  /** The zero-initialised value of the enum: what an unassigned status holds. */
  function DefaultStatus(): (s: StatusJornada)
    ensures Ordinal(s) == 0
    ensures FromOrdinal(0) == Some(s)
  {
    Pendente
  }

  /** The status as it is persisted: the member's name as a string. */
  function StatusName(s: StatusJornada): string {
    match s
    case Pendente => "Pendente"
    case EmAndamento => "EmAndamento"
    case EmPausa => "EmPausa"
    case Finalizada => "Finalizada"
  }

  /** Reads a persisted status name back; anything but the four names is rejected. */
  function ParseStatus(t: string): Option<StatusJornada> {
    if t == "Pendente" then Some(Pendente)
    else if t == "EmAndamento" then Some(EmAndamento)
    else if t == "EmPausa" then Some(EmPausa)
    else if t == "Finalizada" then Some(Finalizada)
    else None
  }

  /** Persisting a status and reading it back gives the same status, and a name that
      reads back as a status is exactly that status's name. */
  lemma StatusNameRoundTrip(s: StatusJornada, t: string)
    ensures ParseStatus(StatusName(s)) == Some(s)
    ensures ParseStatus(t) == Some(s) <==> t == StatusName(s)
  {
  }

  /** The default daily target: 8h48m. */
  const MetaPadraoMinutos: int := 528

  /** The number of timestamp slots. */
  const SlotCount: nat := 4

  datatype JornadaDiaria = JornadaDiaria(
    data: Day,
    inicioJornada: Option<Instant>,
    inicioAlmoco: Option<Instant>,
    fimAlmoco: Option<Instant>,
    fimJornada: Option<Instant>,
    status: StatusJornada,
    cargaHorariaMetaMinutos: int)
  {
    /** The four timestamp slots in their fixed punch order: clock-in, lunch-out,
        lunch-in, clock-out. */
    function Slots(): (s: seq<Option<Instant>>)
      ensures |s| == SlotCount
    {
      [inicioJornada, inicioAlmoco, fimAlmoco, fimJornada]
    }
  }

  /** A freshly constructed journal for `data`: nothing punched yet, the status left
      at the enum's zero value and the default target. */
  function Nova(data: Day): (j: JornadaDiaria)
    ensures j.data == data
    ensures forall i | 0 <= i < SlotCount :: j.Slots()[i].None?
    ensures j.status == Pendente && Ordinal(j.status) == 0
    ensures j.cargaHorariaMetaMinutos == 528
    ensures Stamps(j) == [] && WellFormed(j)
  {
    JornadaDiaria(data, None, None, None, None, DefaultStatus(), MetaPadraoMinutos)
  }

  /** The timestamps that are set, in slot order. */
  function Stamps(j: JornadaDiaria): (r: seq<Instant>)
    ensures |r| <= SlotCount
  {
    j.inicioJornada.ToSeq() + j.inicioAlmoco.ToSeq() + j.fimAlmoco.ToSeq() + j.fimJornada.ToSeq()
  }

  /** How many slots are set. */
  function Filled(j: JornadaDiaria): nat {
    |Stamps(j)|
  }

  /** The status a punch leaves behind when it fills slot `k`. */
  const SlotStatus: seq<StatusJornada> := [EmAndamento, EmPausa, EmAndamento, Finalizada]

  /** The status of a journal whose first `n` slots, and only those, are set. */
  function StatusFor(n: nat): StatusJornada
    requires n <= SlotCount
  {
    if n == 0 then Pendente else SlotStatus[n - 1]
  }

  /** The set slots form a prefix of the fixed order: no slot is set unless the
      one before it is. */
  predicate FilledInOrder(j: JornadaDiaria) {
    && (j.inicioAlmoco.Some? ==> j.inicioJornada.Some?)
    && (j.fimAlmoco.Some? ==> j.inicioAlmoco.Some?)
    && (j.fimJornada.Some? ==> j.fimAlmoco.Some?)
  }

  /** The slots form a prefix and the status is the one that prefix calls for. */
  predicate Shaped(j: JornadaDiaria) {
    FilledInOrder(j) && j.status == StatusFor(Filled(j))
  }

  predicate Sorted(s: seq<int>) {
    forall i, k | 0 <= i < k < |s| :: s[i] <= s[k]
  }

  /** The same fact slot by slot: each set slot's timestamp is the one at its own
      position among the set timestamps. */
  lemma StampsBySlot(j: JornadaDiaria)
    requires FilledInOrder(j)
    ensures j.inicioJornada.None? ==> Stamps(j) == []
    ensures j.inicioJornada.Some? ==> 1 <= |Stamps(j)| && Stamps(j)[0] == j.inicioJornada.value
    ensures j.inicioAlmoco.None? ==> |Stamps(j)| <= 1
    ensures j.inicioAlmoco.Some? ==> 2 <= |Stamps(j)| && Stamps(j)[1] == j.inicioAlmoco.value
    ensures j.fimAlmoco.None? ==> |Stamps(j)| <= 2
    ensures j.fimAlmoco.Some? ==> 3 <= |Stamps(j)| && Stamps(j)[2] == j.fimAlmoco.value
    ensures j.fimJornada.None? ==> |Stamps(j)| <= 3
    ensures j.fimJornada.Some? ==> |Stamps(j)| == 4 && Stamps(j)[3] == j.fimJornada.value
  {
    var i, a, f, e := j.inicioJornada, j.inicioAlmoco, j.fimAlmoco, j.fimJornada;
    if i.None? {
      assert Stamps(j) == [];
    } else if a.None? {
      assert Stamps(j) == [i.value];
    } else if f.None? {
      assert Stamps(j) == [i.value, a.value];
    } else if e.None? {
      assert Stamps(j) == [i.value, a.value, f.value];
    } else {
      assert Stamps(j) == [i.value, a.value, f.value, e.value];
    }
  }

  /** A value no smaller than anything in a sorted sequence extends it sorted. */
  lemma SortedAppend(s: seq<int>, x: int)
    requires Sorted(s)
    requires forall i | 0 <= i < |s| :: s[i] <= x
    ensures Sorted(s + [x])
  {
  }

  /** The invariant punching keeps: a prefix of the slots is set, the status matches
      it, and the set timestamps never go backwards. */
  predicate WellFormed(j: JornadaDiaria) {
    Shaped(j) && Sorted(Stamps(j))
  }

  /** In a journal whose set slots form a prefix, the n-th set timestamp sits in the
      n-th slot. */
  lemma PrefixStamps(j: JornadaDiaria)
    requires FilledInOrder(j)
    ensures forall i | 0 <= i < SlotCount :: j.Slots()[i].Some? <==> i < Filled(j)
    ensures forall i | 0 <= i < Filled(j) :: j.Slots()[i] == Some(Stamps(j)[i])
  {
    var s := j.Slots();
    assert s[0].Some? <==> 0 < Filled(j);
    assert s[1].Some? <==> 1 < Filled(j);
    assert s[2].Some? <==> 2 < Filled(j);
    assert s[3].Some? <==> 3 < Filled(j);
  }
}
