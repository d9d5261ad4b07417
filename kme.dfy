/**
 * The Key Management Entity as `sae.rs` sees it through `get_keys_and_id`
 * and `get_key_from_id`. The HTTP, TLS, JSON and base64 work behind those two
 * calls is outside the model; what remains is their contract.
 */
module Kme {
  import opened Base

  /** One `(key_id, key)` entry of the queue `get_keys_and_id` returns. */
  datatype KeyMaterial = KeyMaterial(id: string, key: seq<byte>)

  /** The query parameters of `get_keys_and_id`: how many keys, of how many bits each. */
  datatype KeyRequest = KeyRequest(number: nat, sizeBits: nat)

  /**
   * `get_keys_and_id`, seen as the answer to its n-th call with a given
   * request: an ordered, possibly empty batch, or `None` when the call fails
   * (a transport, JSON or base64 error the sender propagates with `?`).
   */
  type Supplier = (nat, KeyRequest) -> Option<seq<KeyMaterial>>

  /** Every key a call with `req` obtains, whatever the batch's size, is `req.sizeBits` bits long. */
  ghost predicate KeysOfSize(fetch: Supplier, req: KeyRequest) {
    forall n :: fetch(n, req).Some? ==>
      forall i :: 0 <= i < |fetch(n, req).value| ==> |fetch(n, req).value[i].key| * 8 == req.sizeBits
  }

  /** `get_key_from_id`: the identifiers the receiving KME resolves, with their keys; any other id fails. */
  type Lookup = map<string, seq<byte>>

  function Ids(keys: seq<KeyMaterial>): (ids: seq<string>)
    ensures |ids| == |keys| && forall i :: 0 <= i < |keys| ==> ids[i] == keys[i].id
  {
    seq(|keys|, i requires 0 <= i < |keys| => keys[i].id)
  }

  predicate Distinct<T(==)>(xs: seq<T>) {
    forall i, j :: 0 <= i < j < |xs| ==> xs[i] != xs[j]
  }
}
