/** Vocabulary shared by every module of the model: optional values, the
    `anyhow::Result` of the program with its error kinds, and the unsigned
    64-bit integers used for seeds and hashes. */
module Prelude {

  datatype Option<T> = None | Some(value: T)

  /** Every fallible operation of the program returns `anyhow::Result`; the
      model keeps the kind of failure instead of its message text. */
  datatype Result<T> = Ok(value: T) | Err(error: Error)

  datatype Error =
    | TooFewElements          // graph_pair: fewer than two participants
    | TooManyElements         // graph_pair: more than GraphPairLimit participants
    | EmptyMatching           // graph_pair: the solver matched nobody
    | EmptyMatchedIterable    // add_remainder_to_pairing: no match to extend
    | NotEnoughMembers(found: nat)  // match_members: at most one participant
    | HistoryFetchFailed(reason: string)  // previous_matches: a message could not be read
    | InvalidKey              // send_pairing: the key has no underscore
    | KeyMismatch             // send_pairing: the checksum of the recomputed pairing differs
    | NameLookupFailed        // send_pairing: a partner's user record could not be fetched
    | DmChannelFailed         // send_pairing: a direct-message channel could not be opened

  const U64Limit: int := 0x1_0000_0000_0000_0000

  type u64 = x: int | 0 <= x < U64Limit
}
