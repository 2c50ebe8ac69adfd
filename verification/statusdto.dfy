/** The status view returned to callers (JornadaStatusDto) and its default values. */
module StatusDto {
  import opened Wrappers
  import opened Jornada
  import TimeText

  /** One entry of the punch list: its fixed label and the instant it records. */
  datatype Marcacao = Marcacao(rotulo: string, instante: Instant)

  datatype JornadaStatusDto = JornadaStatusDto(
    mensagem: string,
    tempoTrabalhadoHoje: string,
    horaSaidaPrevista: Option<Instant>,
    statusAtual: StatusJornada,
    marcacoes: seq<Marcacao>)

  /** A status view with every field at its declared default: an empty message, a
      worked-time text that reads as zero seconds, no projected departure, the
      enum's zero status and no punches. */
  function Padrao(): (d: JornadaStatusDto)
    ensures d.mensagem == ""
    ensures d.tempoTrabalhadoHoje == TimeText.FormatDuration(0)
    ensures TimeText.ParseDuration(d.tempoTrabalhadoHoje) == Some(0)
    ensures d.horaSaidaPrevista.None?
    ensures d.statusAtual == Pendente && Ordinal(d.statusAtual) == 0
    ensures d.marcacoes == []
  {
    TimeText.FormatZero();
    TimeText.FormatParseRoundTrip(0);
    JornadaStatusDto("", "00:00:00", None, DefaultStatus(), [])
  }
}
