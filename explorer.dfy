/**
 * The USDT balance read from the TRON explorer's account response
 * (`get_usdt_balance`). The HTTP request and JSON decoding are not modelled:
 * a response is either a request failure or an already-decoded
 * `trc20token_balances` list (absent when the key is missing).
 */
module Explorer {
  import opened Wrappers

  /** One entry of `trc20token_balances`; `balance` is `int(token["balance"])`. */
  datatype Token = Token(tokenName: string, balance: int)

  datatype FetchOutcome =
    | RequestFailed                                  // any requests.RequestException
    | Fetched(trc20TokenBalances: Option<seq<Token>>)

  const TetherName: string := "Tether USD"

  /** The token's balance is given in micro-USDT. */
  const MicroUnits: real := 1000000.0

  function InUsdt(micro: int): real {
    micro as real / MicroUnits
  }

  predicate IsTether(token: Token) {
    token.tokenName == TetherName
  }

  /** No "Tether USD" entry stands at an index of `tokens` from `from` on. */
  predicate NoTetherFrom(tokens: seq<Token>, from: nat) {
    forall j :: from <= j < |tokens| ==> !IsTether(tokens[j])
  }

  /** The balance of the last "Tether USD" entry, or 0 when there is none. */
  function TetherBalance(tokens: seq<Token>): (usdt: real)
    ensures NoTetherFrom(tokens, 0) ==> usdt == 0.0
    ensures forall k :: 0 <= k < |tokens| && IsTether(tokens[k]) && NoTetherFrom(tokens, k + 1)
                     ==> usdt == InUsdt(tokens[k].balance)
  {
    if tokens == [] then 0.0
    else
      var last := tokens[|tokens| - 1];
      if IsTether(last) then InUsdt(last.balance)
      else
        TetherBalance(tokens[..|tokens| - 1])
  }

  /** What `get_usdt_balance` returns for a response: a failed request reads as 0. */
  function UsdtBalance(response: FetchOutcome): (usdt: real)
    ensures response.RequestFailed? ==> usdt == 0.0
    ensures response == Fetched(None) ==> usdt == 0.0
    ensures response.Fetched? && response.trc20TokenBalances.Some? ==>
      usdt == TetherBalance(response.trc20TokenBalances.value)
  {
    match response
    case RequestFailed => 0.0
    case Fetched(None) => 0.0
    case Fetched(Some(tokens)) => TetherBalance(tokens)
  }

  /** The scan one entry further: a "Tether USD" entry replaces the result, any other keeps it. */
  lemma TetherBalanceStep(tokens: seq<Token>, i: nat)
    requires i < |tokens|
    ensures TetherBalance(tokens[..i + 1]) ==
      if IsTether(tokens[i]) then InUsdt(tokens[i].balance) else TetherBalance(tokens[..i])
  {
    assert tokens[..i + 1][..i] == tokens[..i];
  }

  /** The scan of `get_usdt_balance`: every "Tether USD" entry overwrites the result. */
  method GetUsdtBalance(response: FetchOutcome) returns (usdt: real)
    ensures usdt == UsdtBalance(response)
  {
    match response {
      case RequestFailed =>
        usdt := 0.0;
      case Fetched(balances) =>
        var tokens := if balances.Some? then balances.value else [];
        usdt := 0.0;
        var i := 0;
        while i < |tokens|
          invariant 0 <= i <= |tokens|
          invariant usdt == TetherBalance(tokens[..i])
        {
          TetherBalanceStep(tokens, i);
          if tokens[i].tokenName == TetherName {
            usdt := InUsdt(tokens[i].balance);
          }
          i := i + 1;
        }
        assert tokens[..i] == tokens;
    }
  }
}
