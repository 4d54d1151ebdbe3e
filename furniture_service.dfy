/** FurnitureService: lookup, creation (with the items listed on the
    furniture), partial update and deletion of furniture kept in a
    repository. The repository is an in-memory map from id to furniture; the
    item service is the sequence of items it has saved. */
module Furnitures {
  import opened Common
  import opened Decimal

  /** `label` is a Dafny keyword: the label columns are called `name` here. */
  datatype Category = Category(id: int, name: string)

  datatype Dimension = Dimension(id: int, name: string)

  /** An item of a furniture: the furniture it belongs to, its reference and
      the rest of its columns, which this service never touches. */
  datatype Item = Item(furniture: Option<int>, reference: Option<string>, attributes: map<string, string>)

  /** A furniture as stored. The weight is a number whose zero value stands
      for "not supplied" in an update. */
  datatype Furniture = Furniture(
    id: int,
    name: string,
    description: string,
    weight: int,
    category: Option<Category>,
    dimension: Option<Dimension>,
    items: seq<Item>)

  /** The request body of an update: None means "keep", and so does weight 0. */
  datatype FurniturePatch = FurniturePatch(
    name: Option<string>,
    description: Option<string>,
    weight: int,
    category: Option<Category>,
    dimension: Option<Dimension>)

  const EmptyFurniturePatch := FurniturePatch(None, None, 0, None, None)

  /** `String.format("%s%s", furnitureId, categoryId)`. */
  function ItemReference(furnitureId: int, categoryId: int): (r: string)
    ensures |r| >= 2
    ensures furnitureId >= 0 && categoryId >= 0 <==> AllDigits(r)
  {
    var f, c := LongToString(furnitureId), LongToString(categoryId);
    assert (f + c)[0] == f[0] && (f + c)[|f|] == c[0];
    f + c
  }

  /** An item after `setFurniture` and `setReference`. */
  function StampedItem(item: Item, furnitureId: int, reference: string): Item
  {
    item.(furniture := Some(furnitureId), reference := Some(reference))
  }

  /** Creation reaches the end of the item loop: with items, the category
      must be set (its id is read for every reference) and the item service
      must accept every stamped item. */
  predicate CreationSucceeds(details: Furniture, id: int, createItem: Item -> bool)
  {
    details.items == [] ||
    (details.category.Some? &&
     forall i :: 0 <= i < |details.items| ==>
       createItem(StampedItem(details.items[i], id, ItemReference(id, details.category.value.id))))
  }

  /** The furniture saved under `id`, its items stamped with that id and the
      shared reference. */
  function SavedFurniture(details: Furniture, id: int): (f: Furniture)
    requires details.items == [] || details.category.Some?
    ensures |f.items| == |details.items|
    ensures f.(items := details.items) == details.(id := id)
  {
    if details.items == [] then details.(id := id)
    else
      var reference := ItemReference(id, details.category.value.id);
      details.(id := id, items := seq(|details.items|, i requires 0 <= i < |details.items| =>
                                        StampedItem(details.items[i], id, reference)))
  }

  /** The furniture `updateFurniture` saves. */
  function UpdatedFurniture(f: Furniture, patch: FurniturePatch): (g: Furniture)
    ensures g.id == f.id && g.items == f.items
    ensures patch == EmptyFurniturePatch ==> g == f
  {
    f.(name := KeepUnlessSupplied(f.name, patch.name),
       description := KeepUnlessSupplied(f.description, patch.description),
       weight := if patch.weight == 0 then f.weight else patch.weight,
       category := if patch.category.None? then f.category else patch.category,
       dimension := if patch.dimension.None? then f.dimension else patch.dimension)
  }

  class FurnitureService {
    /** The repository: every saved furniture under its id. */
    var furnitures: map<int, Furniture>
    /** The id the repository gives the next saved furniture. */
    var nextId: int
    /** The item repository: the items `itemService.createItem` saved, in
        call order. A failed creation rolls it back with the transaction. */
    var createdItems: seq<Item>

    ghost predicate Valid()
      reads this
    {
      forall id :: id in furnitures ==> furnitures[id].id == id && id < nextId
    }

    constructor ()
      ensures Valid() && furnitures == map[] && createdItems == []
    {
      furnitures := map[];
      nextId := 1;
      createdItems := [];
    }

    /** `getFurnitureById`: the stored furniture, or NOT_FOUND. */
    method GetFurnitureById(id: int) returns (r: Result<Furniture>)
      requires Valid()
      ensures r.Success? <==> id in furnitures
      ensures r.Success? ==> r.value == furnitures[id] && r.value.id == id
      ensures r.Failure? ==> r.error == ResourceException(NotFound)
    {
      if id in furnitures {
        r := Success(furnitures[id]);
      } else {
        r := Failure(ResourceException(NotFound));
      }
    }

    /** `createFurniture`: saves the furniture under a fresh id, then stamps
        each listed item with it and the reference built from it and the
        category id, and hands the item to the item service. `createItem`
        tells whether the item service accepts an item. Any failure (a null
        category, a rejected item) surfaces as CONFLICT, and the transaction
        then leaves both repositories as they were. */
    method CreateFurniture(details: Furniture, createItem: Item -> bool) returns (r: Result<Furniture>)
      requires Valid()
      modifies this
      ensures Valid()
      ensures r.Success? <==> CreationSucceeds(details, old(nextId), createItem)
      ensures r.Success? ==>
                && r.value == SavedFurniture(details, old(nextId))
                && old(nextId) !in old(furnitures)
                && furnitures == old(furnitures)[old(nextId) := r.value]
                && createdItems == old(createdItems) + r.value.items
      ensures r.Failure? ==>
                && r.error == ResourceException(Conflict)
                && furnitures == old(furnitures) && createdItems == old(createdItems)
    {
      var added := details.(id := nextId);
      var calls: seq<Item> := [];
      var i := 0;
      while i < |details.items|
        invariant 0 <= i <= |details.items|
        invariant i > 0 ==> details.category.Some?
        invariant |calls| == i
        invariant forall k :: 0 <= k < i ==>
                    && calls[k] == StampedItem(details.items[k], added.id, ItemReference(added.id, details.category.value.id))
                    && createItem(calls[k])
      {
        var item := details.items[i];
        item := item.(furniture := Some(added.id));
        if added.category.None? {
          r := Failure(ResourceException(Conflict));
          return;
        }
        var reference := LongToString(added.id) + LongToString(added.category.value.id);
        item := item.(reference := Some(reference));
        if !createItem(item) {
          r := Failure(ResourceException(Conflict));
          return;
        }
        calls := calls + [item];
        i := i + 1;
      }
      added := added.(items := calls);
      assert added == SavedFurniture(details, nextId);
      furnitures := furnitures[added.id := added];
      createdItems := createdItems + calls;
      nextId := nextId + 1;
      r := Success(added);
    }

    /** `updateFurniture`: overwrites the label, description, category and
        dimension when the patch supplies them and the weight when the patch
        weight is not zero. A missing id fails with NOT_FOUND, unwrapped. */
    method UpdateFurniture(id: int, patch: FurniturePatch) returns (r: Result<Furniture>)
      requires Valid()
      modifies this
      ensures Valid() && nextId == old(nextId) && createdItems == old(createdItems)
      ensures id !in old(furnitures) ==>
                r == Failure(ResourceException(NotFound)) && furnitures == old(furnitures)
      ensures id in old(furnitures) ==>
                && r == Success(UpdatedFurniture(old(furnitures)[id], patch))
                && furnitures == old(furnitures)[id := r.value]
    {
      if id !in furnitures {
        r := Failure(ResourceException(NotFound));
        return;
      }
      var furniture := furnitures[id];
      furniture := furniture.(name := if patch.name.None? then furniture.name else patch.name.value);
      furniture := furniture.(description := if patch.description.None? then furniture.description else patch.description.value);
      furniture := furniture.(weight := if patch.weight == 0 then furniture.weight else patch.weight);
      furniture := furniture.(category := if patch.category.None? then furniture.category else patch.category);
      furniture := furniture.(dimension := if patch.dimension.None? then furniture.dimension else patch.dimension);
      furnitures := furnitures[id := furniture];
      r := Success(furniture);
    }

    /** `deleteFurniture`: removes exactly `id`, or fails with NOT_FOUND. */
    method DeleteFurniture(id: int) returns (thrown: Option<Failure>)
      requires Valid()
      modifies this
      ensures Valid() && nextId == old(nextId) && createdItems == old(createdItems)
      ensures thrown.None? <==> id in old(furnitures)
      ensures thrown.None? ==> furnitures == old(furnitures) - {id}
      ensures thrown.Some? ==> thrown.value == ResourceException(NotFound) && furnitures == old(furnitures)
    {
      if id !in furnitures {
        thrown := Some(ResourceException(NotFound));
        return;
      }
      furnitures := furnitures - {id};
      thrown := None;
    }
  }

  /** Every saved item points at the saved furniture and carries the one
      reference built from its id and the category id; the rest of each item
      and the order of the items are kept. */
  lemma SavedItemsShareReference(details: Furniture, id: int, k: nat)
    requires details.category.Some? && k < |details.items|
    ensures var item := SavedFurniture(details, id).items[k];
            && item.furniture == Some(id)
            && item.reference == Some(LongToString(id) + LongToString(details.category.value.id))
            && item.attributes == details.items[k].attributes
  {
  }

  /** The reference of a furniture and category with non-negative ids is a
      digit string in which both ids can be read back once the length of
      the furniture id's digits is known. */
  lemma ItemReferenceHoldsBothIds(furnitureId: nat, categoryId: nat)
    ensures var reference, n := ItemReference(furnitureId, categoryId), |LongToString(furnitureId)|;
            && AllDigits(reference)
            && ParseLong(reference[..n]) == furnitureId
            && ParseLong(reference[n..]) == categoryId
  {
    var reference, n := ItemReference(furnitureId, categoryId), |LongToString(furnitureId)|;
    assert reference[..n] == LongToString(furnitureId);
    assert reference[n..] == LongToString(categoryId);
    LongToStringRoundTrip(furnitureId);
    LongToStringRoundTrip(categoryId);
  }

  /** Without that length the reference is ambiguous: furniture 1 in
      category 23 and furniture 12 in category 3 give the same reference. */
  lemma ItemReferenceNotInjective()
    ensures ItemReference(1, 23) == ItemReference(12, 3) == "123"
  {
    assert NatToString(2) == "2" && NatToString(3) == "3" && NatToString(1) == "1";
    assert NatToString(23) == NatToString(2) + "3";
    assert NatToString(12) == NatToString(1) + "2";
  }

  /** Each listed field takes the patch value when one is supplied (a
      non-zero weight) and keeps the stored one otherwise; id and items
      never change. */
  lemma UpdateFurnitureMergesFields(f: Furniture, patch: FurniturePatch)
    ensures var g := UpdatedFurniture(f, patch);
            && (if patch.name.Some? then g.name == patch.name.value else g.name == f.name)
            && (if patch.description.Some? then g.description == patch.description.value else g.description == f.description)
            && (if patch.weight != 0 then g.weight == patch.weight else g.weight == f.weight)
            && (if patch.category.Some? then g.category == patch.category else g.category == f.category)
            && (if patch.dimension.Some? then g.dimension == patch.dimension else g.dimension == f.dimension)
            && g.id == f.id && g.items == f.items
  {
  }

  /** An update with nothing supplied saves the furniture unchanged. */
  lemma EmptyFurniturePatchIsIdentity(f: Furniture)
    ensures UpdatedFurniture(f, EmptyFurniturePatch) == f
  {
  }

  /** Applying the same patch twice saves what applying it once does. */
  lemma UpdateFurnitureIdempotent(f: Furniture, patch: FurniturePatch)
    ensures UpdatedFurniture(UpdatedFurniture(f, patch), patch) == UpdatedFurniture(f, patch)
  {
  }
}
