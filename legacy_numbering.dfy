/**
 * The earlier copy of the numbering call (`numbering` in the
 * `protein-ab-tools` package): the same sanitising, default name, chain
 * expansion and `None` check as `run_numbering`, written out once more.
 */
module LegacyNumbering {
  import opened Wrappers
  import opened PyStr
  import opened Engine
  import N = Numbering

  /**
   * `numbering`: the engine is asked about the stripped, gap-free sequence;
   * its `None` becomes `Invalid sequence: <cleaned>`, anything else is
   * returned unchanged.
   */
  function Numbering(s: string, name: Option<string>, scheme: string, chain: string, engine: Numberer)
    : (r: Result<seq<Residue>, N.Error>)
    ensures var req := engine(Request(N.DefaultName(name, chain, scheme), N.Clean(s), scheme, N.ExpandChain(chain)));
      (r.Failure? <==> req.None?)
      && (r.Failure? ==> r.error == N.InvalidSequence(N.Clean(s)))
      && (r.Success? ==> r.value == req.value)
  {
    var cleaned := Remove(Strip(s), '-');
    var recordName := if name.None? then chain + "-" + scheme else name.value;
    var allow :=
      if chain == "H" then Letters(["H"])
      else if chain == "L" then Letters(["K", "L"])
      else AsGiven(chain);
    var result := engine(Request(recordName, cleaned, scheme, allow));
    if result.None? then Failure(N.InvalidSequence(cleaned)) else Success(result.value)
  }

  /** The two copies behave the same on every input and every engine. */
  lemma {:induction false} AgreesWithRunNumbering(s: string, name: Option<string>, scheme: string, chain: string, engine: Numberer)
    ensures Numbering(s, name, scheme, chain, engine) == N.RunNumbering(s, name, scheme, chain, engine)
  {
  }
}
