/** Resources and inventories. The Resource and Inventory classes are not
    part of this model; they are represented by their data shape: a resource
    is a URI with three optional properties, and an inventory maps each URI to
    its resource, with `add` inserting or overwriting by URI. */
module Resources {
  import opened Wrappers

  /** An instant as the resource carries it (a float from the clock or its
      ISO-8601 text); the model never looks inside. */
  type Timestamp = string

  datatype Resource = Resource(uri: string, lastmod: Option<Timestamp>, size: Option<int>, md5: Option<string>)

  type Inventory = map<string, Resource>

  /** Every entry is filed under its own URI. */
  predicate WellKeyed(inv: Inventory)
  {
    forall k :: k in inv ==> inv[k].uri == k
  }

  /** `inventory.add(r)`: file `r` under its URI, replacing any resource
      already there. */
  function Add(inv: Inventory, r: Resource): (inv': Inventory)
    ensures inv'.Keys == inv.Keys + {r.uri}
    ensures inv'[r.uri] == r
    ensures forall k :: k in inv && k != r.uri ==> inv'[k] == inv[k]
  {
    inv[r.uri := r]
  }

  function Uris(rs: seq<Resource>): set<string>
  {
    set i | 0 <= i < |rs| :: rs[i].uri
  }

  lemma UrisCons(rs: seq<Resource>)
    requires |rs| > 0
    ensures Uris(rs) == {rs[0].uri} + Uris(rs[1..])
  {
    forall u | u in Uris(rs) ensures u in {rs[0].uri} + Uris(rs[1..]) {
      var i :| 0 <= i < |rs| && rs[i].uri == u;
      if i > 0 {
        assert rs[1..][i - 1].uri == u;
      }
    }
    forall u | u in Uris(rs[1..]) ensures u in Uris(rs) {
      var i :| 0 <= i < |rs[1..]| && rs[1..][i].uri == u;
      assert rs[i + 1].uri == u;
    }
  }

  /** No later resource in `rs` shares the URI of `rs[i]`. */
  predicate LastWithUri(rs: seq<Resource>, i: nat)
    requires i < |rs|
  {
    forall j :: i < j < |rs| ==> rs[j].uri != rs[i].uri
  }

  /** Adding resources one after the other, as a loop of `add` calls does. */
  function AddAll(inv: Inventory, rs: seq<Resource>): Inventory
    decreases |rs|
  {
    if |rs| == 0 then inv else AddAll(Add(inv, rs[0]), rs[1..])
  }

  /** The keys gained are exactly the added URIs, a key no added resource
      carries keeps its value, and each URI ends up with the last resource
      that carries it. */
  lemma {:induction false} AddAllSpec(inv: Inventory, rs: seq<Resource>)
    ensures AddAll(inv, rs).Keys == inv.Keys + Uris(rs)
    ensures forall k :: k in inv && k !in Uris(rs) ==> AddAll(inv, rs)[k] == inv[k]
    ensures forall i :: 0 <= i < |rs| && LastWithUri(rs, i) ==> AddAll(inv, rs)[rs[i].uri] == rs[i]
    decreases |rs|
  {
    if |rs| > 0 {
      var rest := AddAll(Add(inv, rs[0]), rs[1..]);
      AddAllSpec(Add(inv, rs[0]), rs[1..]);
      UrisCons(rs);
      forall i | 0 <= i < |rs| && LastWithUri(rs, i)
        ensures rest[rs[i].uri] == rs[i]
      {
        if i > 0 {
          assert LastWithUri(rs[1..], i - 1);
          assert rs[1..][i - 1] == rs[i];
        }
      }
    }
  }

  lemma AddAllCons(inv: Inventory, rs: seq<Resource>)
    requires |rs| > 0
    ensures AddAll(inv, rs) == AddAll(Add(inv, rs[0]), rs[1..])
  {
  }

  /** Adding keeps every entry filed under its own URI. */
  lemma {:induction false} AddAllWellKeyed(inv: Inventory, rs: seq<Resource>)
    requires WellKeyed(inv)
    ensures WellKeyed(AddAll(inv, rs))
    decreases |rs|
  {
    if |rs| > 0 {
      AddAllWellKeyed(Add(inv, rs[0]), rs[1..]);
    }
  }

  /** When no two resources share a URI, each one ends up in the inventory. */
  lemma AddAllDistinct(inv: Inventory, rs: seq<Resource>)
    requires forall i, j :: 0 <= i < j < |rs| ==> rs[i].uri != rs[j].uri
    ensures forall i :: 0 <= i < |rs| ==> rs[i].uri in AddAll(inv, rs) && AddAll(inv, rs)[rs[i].uri] == rs[i]
  {
    AddAllSpec(inv, rs);
    forall i | 0 <= i < |rs| ensures LastWithUri(rs, i) { }
  }

  /** Every URI among the resources has a last resource carrying it. */
  lemma {:induction false} LastWithUriExists(rs: seq<Resource>, k: string)
    requires k in Uris(rs)
    ensures exists i :: 0 <= i < |rs| && rs[i].uri == k && LastWithUri(rs, i)
    decreases |rs|
  {
    var n := |rs| - 1;
    if rs[n].uri != k {
      var front := rs[..n];
      assert k in Uris(front) by {
        var j :| 0 <= j < |rs| && rs[j].uri == k;
        assert front[j] == rs[j];
      }
      LastWithUriExists(front, k);
      var i :| 0 <= i < |front| && front[i].uri == k && LastWithUri(front, i);
      assert rs[i] == front[i];
      assert LastWithUri(rs, i);
    }
  }

  /** After adding, each key holds either its old value (when no added
      resource carries it) or one of the added resources that carries it. */
  lemma AddAllValues(inv: Inventory, rs: seq<Resource>)
    ensures forall k :: k in AddAll(inv, rs) && k !in Uris(rs) ==> k in inv && AddAll(inv, rs)[k] == inv[k]
    ensures forall k :: k in Uris(rs) ==>
              exists i :: 0 <= i < |rs| && rs[i].uri == k && k in AddAll(inv, rs) && AddAll(inv, rs)[k] == rs[i]
  {
    AddAllSpec(inv, rs);
    forall k | k in Uris(rs)
      ensures exists i :: 0 <= i < |rs| && rs[i].uri == k && k in AddAll(inv, rs) && AddAll(inv, rs)[k] == rs[i]
    {
      LastWithUriExists(rs, k);
    }
  }
}
