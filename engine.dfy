/**
 * The boundary with the external numbering engine (ANARCI). The engine itself
 * is not modelled: it is a function from the request this wrapper builds to the
 * numbered residues of the first domain it finds, or `None` when it cannot
 * number the sequence.
 */
module Engine {
  import opened Wrappers

  /** One numbered residue `((position, insertion_code), amino_acid_or_gap)`. */
  datatype Residue = Residue(position: int, insertion: char, aa: char)

  /**
   * The `allow` argument: a list of chain-type letters, or the caller's chain
   * value handed over unchanged when it is neither `H` nor `L`.
   */
  datatype Allow = Letters(letters: seq<string>) | AsGiven(chain: string)

  /** One call `anarci([(name, sequence)], scheme=scheme, allow=allow)`. */
  datatype Request = Request(name: string, sequence: string, scheme: string, allow: Allow)

  /** What the engine answers for the first (only) query of a request. */
  type Numberer = Request -> Option<seq<Residue>>
}
