/** The shared message model (common/src/lib.rs): the networks a transaction
    can be broadcast to, the broadcast endpoint each one selects, and the
    request envelope that travels through the mixnet. */
module Wire {

  /** A closed enumeration, declared Mainnet first and Testnet second. */
  datatype Network = Mainnet | Testnet

  /** The whole payload of one mixnet message: the transaction as hex text,
      which is forwarded and never parsed, and the network to broadcast on. */
  datatype TransactionRequest = TransactionRequest(txHex: string, network: Network)

  /** The mempool.space API base that `Network::mempool_api_url` selects.
      Each network names exactly one base, and each base names exactly one
      network. */
  function MempoolApiUrl(network: Network): (url: string)
    ensures url == "https://mempool.space/api" <==> network == Mainnet
    ensures url == "https://mempool.space/testnet/api" <==> network == Testnet
  {
    match network
    case Mainnet => "https://mempool.space/api"
    case Testnet => "https://mempool.space/testnet/api"
  }

  /** The two base URLs are non-empty, share the mempool.space origin, and
      differ, so the mapping selects one endpoint per network. */
  lemma ApiUrlSelectsNetwork(a: Network, b: Network)
    ensures |MempoolApiUrl(a)| > 0
    ensures "https://mempool.space/" <= MempoolApiUrl(a)
    ensures MempoolApiUrl(a) == MempoolApiUrl(b) <==> a == b
  {
  }
}
