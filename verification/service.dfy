/** The service's two entry points over a day-keyed store of journals: record a
    punch for today (find, punch, upsert) and report today's status (find, derive).
    The store is a value passed in and returned; the current day and instant are
    parameters. */
module Service {
  import opened Wrappers
  import opened Jornada
  import opened StatusDto
  import opened Punch
  import Accounting

  /** The journals kept so far, at most one per day. */
  type Store = map<Day, JornadaDiaria>

  /** Looks up the journal of day `hoje`. */
  function Find(store: Store, hoje: Day): (r: Option<JornadaDiaria>)
    ensures r.Some? <==> hoje in store
    ensures r.Some? ==> r.value == store[hoje]
  {
    if hoje in store then Some(store[hoje]) else None
  }

  /** What a successful punch hands back: the updated journal and the store after
      the upsert. */
  datatype Gravado = Gravado(jornada: JornadaDiaria, store: Store)

  /** Records a punch at `agora` for day `hoje`. On success the store holds the
      updated journal under `hoje` (reading it back gives that journal) and every
      other day is untouched; on error nothing is written. */
  function Marcar(store: Store, hoje: Day, agora: Instant): (r: Result<Gravado, PunchError>)
    ensures r.Failure? <==> MarcarPonto(Find(store, hoje), hoje, agora).Failure?
    ensures r.Success? ==>
      && MarcarPonto(Find(store, hoje), hoje, agora) == Success(r.value.jornada)
      && Find(r.value.store, hoje) == Some(r.value.jornada)
      && r.value.store.Keys == store.Keys + {hoje}
      && (forall d | d in store && d != hoje :: Find(r.value.store, d) == Find(store, d))
  {
    match MarcarPonto(Find(store, hoje), hoje, agora)
    case Failure(e) => Failure(e)
    case Success(j) => Success(Gravado(j, store[hoje := j]))
  }

  /** Today's status view. */
  function StatusHoje(store: Store, hoje: Day, agora: Instant): (r: JornadaStatusDto)
    ensures hoje !in store ==> r == Padrao().(mensagem := Accounting.MensagemSemJornada)
    ensures hoje in store ==> r == Accounting.StatusDoDia(Some(store[hoje]), agora)
  {
    Accounting.StatusDoDia(Find(store, hoje), agora)
  }

  /** Every journal is filed under its own date and satisfies the journal invariant. */
  predicate StoreOk(store: Store) {
    forall d | d in store :: store[d].data == d && WellFormed(store[d])
  }

  /** With a clock that never runs backwards, punching keeps the store consistent. */
  lemma MarcarKeepsStoreOk(store: Store, hoje: Day, agora: Instant)
    requires StoreOk(store)
    requires hoje in store ==>
      forall i | 0 <= i < |Stamps(store[hoje])| :: Stamps(store[hoje])[i] <= agora
    ensures Marcar(store, hoje, agora).Success? ==> StoreOk(Marcar(store, hoje, agora).value.store)
  {
    var j := Find(store, hoje).GetOr(Nova(hoje));
    MarcarKeepsWellFormed(j, hoje, agora);
  }

  /** Right after a punch, today's status reports the stored status and lists one
      entry per punch so far. */
  lemma StatusAfterMarcar(store: Store, hoje: Day, agora: Instant, depois: Instant)
    requires StoreOk(store)
    requires Marcar(store, hoje, agora).Success?
    ensures var g := Marcar(store, hoje, agora).value;
      var v := StatusHoje(g.store, hoje, depois);
      && v.mensagem == Accounting.MensagemStatus
      && v.statusAtual == g.jornada.status
      && |v.marcacoes| == Filled(g.jornada)
      && Filled(g.jornada) >= 1
  {
    var j := Find(store, hoje).GetOr(Nova(hoje));
    MarcarKeepsShape(j, hoje, agora);
    var g := Marcar(store, hoje, agora).value;
    PrefixStamps(g.jornada);
  }
}
