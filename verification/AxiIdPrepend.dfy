/**
 Identifier widening of `axi_id_prepend.sv` and the response switching of `axi_mux.sv` that
 relies on it: the port index travels in the bits above the original identifier.
 */
module AxiIdPrepend {
  import opened Bits

  /** `{pre_id, id[w-1:0]}` for an identifier of `w` bits. */
  function Prepend(w: nat, pre: nat, id: nat): nat {
    pre * Pow2(w) + id % Pow2(w)
  }

  /** The slice `id[w +: bits]`. */
  function Prefix(w: nat, bits: nat, id: nat): nat {
    id / Pow2(w) % Pow2(bits)
  }

  /** Assignment to the narrower identifier drops the upper bits. */
  function Strip(w: nat, id: nat): nat {
    id % Pow2(w)
  }

  lemma PrependRoundTrip(w: nat, ports: nat, pre: nat, id: nat)
    requires 1 <= ports && pre < ports
    ensures Prefix(w, CeilLog2(ports), Prepend(w, pre, id)) == pre
    ensures Strip(w, Prepend(w, pre, id)) == id % Pow2(w)
  {
    var a := Pow2(w);
    assert Prepend(w, pre, id) == a * pre + id % a;
    QuotientUnique(Prepend(w, pre, id), a, pre, id % a);
    QuotientUnique(pre, Pow2(CeilLog2(ports)), 0, pre);
  }

  /** `(valid) ? (1 << switch) : 0`, cut to the number of ports. */
  function SwitchValid(ports: nat, valid: bool, switch: nat): (v: seq<bool>)
    ensures |v| == ports
  {
    seq(ports, i requires 0 <= i < ports => valid && i == switch)
  }

  /** `slv_readies[switch]`. */
  predicate SwitchReady(readies: seq<bool>, switch: nat) {
    switch < |readies| && readies[switch]
  }

  /**
   A response that carries the identifier of a request from port `i` is offered to port `i` alone,
   is accepted exactly when port `i` is ready, and arrives with the identifier the port had used.
   */
  lemma ResponseReturnsToRequester(w: nat, ports: nat, i: nat, id: nat, valid: bool, readies: seq<bool>)
    requires 1 <= ports && i < ports && |readies| == ports && id < Pow2(w)
    ensures var rid := Prepend(w, i, id);
            var switch := Prefix(w, CeilLog2(ports), rid);
            && (forall j :: 0 <= j < ports ==> (SwitchValid(ports, valid, switch)[j] <==> valid && j == i))
            && (SwitchReady(readies, switch) <==> readies[i])
            && Strip(w, rid) == id
  {
    PrependRoundTrip(w, ports, i, id);
    QuotientUnique(id, Pow2(w), 0, id);
  }

  /** Requests of different ports, or with different identifiers, never share a widened identifier. */
  lemma PrependInjective(w: nat, ports: nat, i: nat, id: nat, j: nat, id': nat)
    requires i < ports && j < ports && id < Pow2(w) && id' < Pow2(w)
    requires Prepend(w, i, id) == Prepend(w, j, id')
    ensures i == j && id == id'
  {
    PrependRoundTrip(w, ports, i, id);
    PrependRoundTrip(w, ports, j, id');
    QuotientUnique(id, Pow2(w), 0, id);
    QuotientUnique(id', Pow2(w), 0, id');
  }
}
