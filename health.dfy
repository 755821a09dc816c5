/**
 The `/health` endpoint: probe the database with `SELECT 1` and the model
 server with its liveness call, then report both and an overall verdict.
 The probes themselves are inputs here.
 */
module Health {

  /** What became of `SELECT 1`: it returned, or it raised an `Exception`. */
  datatype DbProbe = Returned | Raised(error: string)

  /** The JSON body of the response. */
  datatype Body = Body(status: string, db: string, ollama: string)

  datatype Response = Response(code: int, body: Body)

  /** The `try`/`except Exception` around the database probe. */
  function DbConnectivity(probe: DbProbe): (ok: bool)
    ensures ok <==> probe == Returned
  {
    match probe
    case Returned => true
    case Raised(_) => false
  }

  function Reachability(ok: bool): string
  {
    if ok then "ok" else "unreachable"
  }

  /** `health_check`: status code and body from the two probe results. */
  function HealthCheck(dbProbe: DbProbe, ollamaOk: bool): (r: Response)
    ensures r.code == 200 <==> dbProbe == Returned && ollamaOk
    ensures r.code == 503 <==> !(dbProbe == Returned && ollamaOk)
    ensures r.body.status == "ok" <==> r.code == 200
    ensures r.body.status == "error" <==> r.code == 503
    ensures r.body.db == "ok" <==> dbProbe == Returned
    ensures r.body.db == "unreachable" <==> dbProbe.Raised?
    ensures r.body.ollama == "ok" <==> ollamaOk
    ensures r.body.ollama == "unreachable" <==> !ollamaOk
  {
    var dbOk := DbConnectivity(dbProbe);
    var healthy := dbOk && ollamaOk;
    Response(
      if healthy then 200 else 503,
      Body(if healthy then "ok" else "error", Reachability(dbOk), Reachability(ollamaOk)))
  }

  /**
   The body reports each probe on its own: from any response one can read
   back whether the database answered and whether the model server did,
   whatever the other probe gave. In particular a failed database probe does
   not stop the model server from being consulted and reported.
   */
  lemma ResponseDeterminesProbes(db1: DbProbe, ok1: bool, db2: DbProbe, ok2: bool)
    requires HealthCheck(db1, ok1) == HealthCheck(db2, ok2)
    ensures DbConnectivity(db1) == DbConnectivity(db2)
    ensures ok1 == ok2
  {
  }

  /** Whatever the database raises, the handler answers 503 and reports it unreachable. */
  lemma DbFailureAbsorbed(error: string, ollamaOk: bool)
    ensures HealthCheck(Raised(error), ollamaOk) ==
      Response(503, Body("error", "unreachable", if ollamaOk then "ok" else "unreachable"))
  {
  }
}
