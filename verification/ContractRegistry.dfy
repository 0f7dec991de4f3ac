/** Compilation artifacts by address (src/contract_registry.rs). */
module ContractRegistry {
  import opened Basics
  import opened StructLog
  import opened StorageLayout

  /** What the recorder takes from a contract's artifacts: the storage layout, and the lookup of a
      step in its source map, sources and syntax tree. */
  datatype Artifacts = Artifacts(layout: Option<Layout>, site: (seq<Log>, nat) -> Site)

  /** Code facts from one contract, storage layout from another. */
  datatype View = View(layout: Option<Layout>, site: (seq<Log>, nat) -> Site)

  datatype Entries = Entries(contracts: map<Address, Artifacts>, default: Option<Address>) {
    /** Artifacts of `address`, falling back to the default contract. */
    function Get(address: Address): Option<Artifacts> {
      if address in contracts then Some(contracts[address])
      else if default.Some? && default.value in contracts then Some(contracts[default.value])
      else None
    }

    /** Code of the implementation, layout of the proxy; the layout has no fallback. */
    function GetDelegatecall(implementation: Address, proxy: Address): Option<View> {
      var code := Get(implementation);
      if code.None? then None
      else Some(View(if proxy in contracts then contracts[proxy].layout else None, code.value.site))
    }
  }

  class ContractRegistry {
    var entries: Entries

    constructor ()
      ensures entries == Entries(map[], None)
    {
      entries := Entries(map[], None);
    }

    method Register(address: Address, artifacts: Artifacts)
      modifies this
      ensures entries == Entries(old(entries.contracts)[address := artifacts], old(entries.default))
      ensures entries.Get(address) == Some(artifacts)
    {
      entries := entries.(contracts := entries.contracts[address := artifacts]);
    }

    method SetDefault(address: Address)
      modifies this
      ensures entries == Entries(old(entries.contracts), Some(address))
      ensures forall a :: a in entries.contracts ==> entries.Get(a) == old(entries.Get(a))
    {
      entries := entries.(default := Some(address));
    }
  }
}
