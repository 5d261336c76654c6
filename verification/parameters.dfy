/** The request parameter maps: the module defaults, the per-run copy and the per-download copy. */
module Parameters {

  type Params = map<string, string>

  /** The module-level defaults (model, grid resolution, package, time range, reference time). */
  const Defaults: Params := map[
    "model" := "AROME",
    "grid" := "0.025",
    "package" := "SP1",
    "time" := "00H06H",
    "referencetime" := ""
  ]

  /** The provider access parameters every download adds to its copy. */
  const WebParameters: Params := map[
    "fond" := "donnee_libre",
    "token" := "__5yLVTdr-sGeHoPitnFc7TZ6MhBcJxuSsoZp6y0leVHU__"
  ]

  /** The reference time requested for a day: midnight UTC. */
  function ReferenceTime(day: string): string
  {
    day + "T00:00:00Z"
  }

  /** The copy of the defaults `getAromeFile` works on: its time range is the requested
      maximum and its reference time is midnight of the requested day; every other key
      keeps its default value, and the defaults themselves are a value no copy can alter. */
  function RunParameters(day: string, max: string): (p: Params)
    ensures p.Keys == Defaults.Keys
    ensures p["time"] == max
    ensures p["referencetime"] == ReferenceTime(day)
    ensures forall k :: k in Defaults && k != "time" && k != "referencetime" ==> p[k] == Defaults[k]
  {
    Defaults["time" := max]["referencetime" := ReferenceTime(day)]
  }

  /** The private copy one download works on: its time range becomes `timeFrame`, the access
      parameters are added (overwriting any previous value), and every other key is kept. */
  function DownloadParameters(p: Params, timeFrame: string): (q: Params)
    ensures q.Keys == p.Keys + {"time"} + WebParameters.Keys
    ensures q["time"] == timeFrame
    ensures forall k :: k in WebParameters ==> q[k] == WebParameters[k]
    ensures forall k :: k in p && k != "time" && k !in WebParameters ==> q[k] == p[k]
  {
    p["time" := timeFrame] + WebParameters
  }

  /** Two downloads of one run see the same parameters except for their time range. */
  lemma DownloadsDifferOnlyInTime(p: Params, t1: string, t2: string)
    ensures DownloadParameters(p, t1).Keys == DownloadParameters(p, t2).Keys
    ensures forall k :: k in DownloadParameters(p, t1) && k != "time" ==>
      DownloadParameters(p, t1)[k] == DownloadParameters(p, t2)[k]
  {
  }
}
