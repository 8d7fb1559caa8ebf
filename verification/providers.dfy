/** The provider registry of internal/downloader/providers/registry.go: a map
    from provider id to the provider's static info. The provider's network
    behaviour is not part of this model. */
module Providers {
  import opened Results
  import opened Sorting

  datatype ProviderInfo = ProviderInfo(id: string, name: string)

  type Registry = map<string, ProviderInfo>

  /** A registry whose keys are the ids its providers report. */
  predicate Valid(reg: Registry) {
    forall id :: id in reg ==> reg[id].id == id
  }

  function DuplicateMessage(id: string): string {
    "provider with ID '" + id + "' is already registered"
  }

  /** `Register`: a second provider with a known id is a panic, which leaves
      the registry as it was. */
  function Register(reg: Registry, p: ProviderInfo): (r: Result<Registry>)
    ensures r.Err? <==> p.id in reg
    ensures r.Err? ==> r.error == DuplicateMessage(p.id)
    ensures r.Ok? ==>
      r.value.Keys == reg.Keys + {p.id} && r.value[p.id] == p
      && forall id :: id in reg ==> r.value[id] == reg[id]
    ensures r.Ok? && Valid(reg) ==> Valid(r.value)
  {
    if p.id in reg then Err(DuplicateMessage(p.id)) else Ok(reg[p.id := p])
  }

  /** `Get` */
  function Get(reg: Registry, id: string): (r: Option<ProviderInfo>)
    ensures r.Some? <==> id in reg
    ensures r.Some? ==> r.value == reg[id]
  {
    Lookup(reg, id)
  }

  /** `GetAll`, in the map's iteration order `order`. */
  function GetAll(reg: Registry, order: seq<string>): (r: seq<ProviderInfo>)
    requires Valid(reg) && Enumerates(order, reg.Keys)
    ensures |r| == |reg|
    ensures forall i :: 0 <= i < |r| ==> r[i].id in reg && r[i] == reg[r[i].id]
    ensures forall id :: id in reg ==> exists i :: 0 <= i < |r| && r[i].id == id
    ensures forall i, j :: 0 <= i < j < |r| ==> r[i].id != r[j].id
  {
    EnumeratesLength(order, reg.Keys);
    var r := seq(|order|, i requires 0 <= i < |order| => reg[order[i]]);
    GetAllFacts(reg, order, r);
    r
  }

  lemma GetAllFacts(reg: Registry, order: seq<string>, r: seq<ProviderInfo>)
    requires Valid(reg) && Enumerates(order, reg.Keys)
    requires |r| == |order| && forall i :: 0 <= i < |r| ==> r[i] == reg[order[i]]
    ensures forall i :: 0 <= i < |r| ==> r[i].id == order[i]
    ensures forall id :: id in reg ==> exists i :: 0 <= i < |r| && r[i].id == id
    ensures forall i, j :: 0 <= i < j < |r| ==> r[i].id != r[j].id
  {
    forall i | 0 <= i < |r| ensures r[i].id == order[i] {
      assert order[i] in reg;
    }
    forall id | id in reg ensures exists i :: 0 <= i < |r| && r[i].id == id {
      var i := Position(order, id);
      assert r[i].id == id;
    }
  }

  /** A provider just registered is found by `Get`. */
  lemma RegisterThenGet(reg: Registry, p: ProviderInfo)
    requires p.id !in reg
    ensures Register(reg, p).Ok? && Get(Register(reg, p).value, p.id) == Some(p)
  {
  }
}
