/** The intrinsic gas of a transaction, in 64-bit arithmetic that must not overflow. */
module GasRules {
  import opened Prelude
  import opened Transactions

  const TX_GAS: nat := 21000
  const TX_GAS_CONTRACT_CREATION: nat := 53000
  const TX_DATA_ZERO_GAS: nat := 4
  const TX_DATA_NON_ZERO_GAS_FRONTIER: nat := 68
  const TX_DATA_NON_ZERO_GAS_EIP2028: nat := 16

  function NonZeroBytes(data: seq<Byte>): (n: nat)
    ensures n <= |data|
  {
    if data == [] then 0
    else NonZeroBytes(data[..|data| - 1]) + if data[|data| - 1] != 0 then 1 else 0
  }

  function BaseGas(creation: bool, homestead: bool): nat {
    if creation && homestead then TX_GAS_CONTRACT_CREATION else TX_GAS
  }

  function NonZeroGas(eip2028: bool): nat {
    if eip2028 then TX_DATA_NON_ZERO_GAS_EIP2028 else TX_DATA_NON_ZERO_GAS_FRONTIER
  }

  /** The gas in unbounded arithmetic. */
  function ExactIntrinsicGas(data: seq<Byte>, creation: bool, homestead: bool, eip2028: bool): nat {
    var nz := NonZeroBytes(data);
    BaseGas(creation, homestead) + nz * NonZeroGas(eip2028) + (|data| - nz) * TX_DATA_ZERO_GAS
  }

  lemma {:induction false} ZeroBytes(data: seq<Byte>)
    ensures NonZeroBytes(data) + multiset(data)[0] == |data|
    decreases |data|
  {
    if data != [] {
      ZeroBytes(data[..|data| - 1]);
      assert data == data[..|data| - 1] + [data[|data| - 1]];
    }
  }

  /** The gas in numbers: a base, 4 for every zero byte and 68, later 16, for every other. */
  lemma IntrinsicInNumbers(data: seq<Byte>, creation: bool, homestead: bool, eip2028: bool)
    ensures var zeros := multiset(data)[0];
            ExactIntrinsicGas(data, creation, homestead, eip2028) ==
            (if creation && homestead then 53000 else 21000)
            + 4 * zeros + (if eip2028 then 16 else 68) * (|data| - zeros)
  {
    ZeroBytes(data);
  }

  /** The two guarded steps fail exactly when the exact sum does not fit into 64 bits. */
  method ComputeIntrinsicGas(data: seq<Byte>, creation: bool, homestead: bool, eip2028: bool) returns (r: Option<nat>)
    requires |data| <= MAX_UINT64
    ensures var exact := ExactIntrinsicGas(data, creation, homestead, eip2028);
            r == if exact <= MAX_UINT64 then Some(exact) else None
  {
    var gas: Word := if creation && homestead then TX_GAS_CONTRACT_CREATION else TX_GAS;
    if |data| > 0 {
      var nz := 0;
      for i := 0 to |data|
        invariant nz == NonZeroBytes(data[..i]) <= i
      {
        assert data[..i + 1][..i] == data[..i];
        if data[i] != 0 {
          nz := nz + 1;
        }
      }
      assert data[..|data|] == data;
      var nonZeroGas := if eip2028 then TX_DATA_NON_ZERO_GAS_EIP2028 else TX_DATA_NON_ZERO_GAS_FRONTIER;
      if (MAX_UINT64 - gas) / nonZeroGas < nz {
        return None;
      }
      gas := gas + nz * nonZeroGas;
      var z := |data| - nz;
      if (MAX_UINT64 - gas) / TX_DATA_ZERO_GAS < z {
        return None;
      }
      gas := gas + z * TX_DATA_ZERO_GAS;
    }
    r := Some(gas);
  }
}
