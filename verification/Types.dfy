/** The event shape of `workers/src/types.ts` that the decoder, the indexer and the client share. */
module Types {
  import opened Wrappers

  /** Where the market's accounts live: Solana or the MagicBlock rollup. */
  datatype Domain = L1 | Er

  datatype EventKind = Book | Fill | Funding | Health | Oracle | Custody

  datatype MarketEvent<+P> = MarketEvent(
    id: string,
    symbol: string,
    kind: EventKind,
    slot: Option<int>,
    domain: Option<Domain>,
    sequence: Option<int>,
    payload: P,
    observedAt: int)
}
