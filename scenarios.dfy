/** Sequences of requests against one catalogue, proved from the handlers'
    contracts alone. */
module Scenarios {
  import opened Models
  import opened Schemas
  import opened App

  /** A body the create handler accepts. */
  predicate Acceptable(body: Body)
  {
    LoadFull(body).Loaded? && LoadFull(body).value.precio >= 0.0 && LoadFull(body).value.stock >= 0
  }

  /** Creating and then fetching by the returned id gives the same product,
      whose fields are the ones the body sent, `descripcion` included. */
  method CreateThenGet(c: Catalogue, body: Body) returns (created: Response, fetched: Response)
    requires c.Valid() && Acceptable(body)
    modifies c
    ensures c.Valid()
    ensures created.status == 201 && created.payload.Item?
    ensures fetched == Response(200, created.payload)
    ensures var p := created.payload.product;
      && JStr(p.nombre) == body["nombre"]
      && NumberValue(body["precio"]) == p.precio
      && JInt(p.stock) == body["stock"]
      && ("descripcion" in body ==> Nullable(p.descripcion) == body["descripcion"])
      && ("descripcion" !in body ==> p.descripcion == None)
  {
    created := c.Create(body);
    fetched := c.Get(created.payload.product.id);
  }

  /** The first delete of a stored id succeeds; a second delete and a lookup
      of the same id then both find nothing. */
  method DeleteTwice(c: Catalogue, id: nat) returns (first: Response, second: Response, fetched: Response)
    requires c.Valid() && id in c.rows
    modifies c
    ensures c.Valid()
    ensures first == Response(200, Notice(DELETED))
    ensures second == Response(404, Failure(NOT_FOUND))
    ensures fetched == Response(404, Failure(NOT_FOUND))
    ensures c.rows == old(c.rows) - {id}
  {
    first := c.Delete(id);
    second := c.Delete(id);
    fetched := c.Get(id);
  }

  /** Deleting the row just created frees its id, and the next create takes
      that id again: SQLite's rowid rule reuses the largest id once it is gone. */
  method DeletedTopIdIsReused(c: Catalogue, body: Body) returns (first: Response, second: Response)
    requires c.Valid() && Acceptable(body)
    modifies c
    ensures c.Valid()
    ensures first.status == 201 && second.status == 201 && first.payload.Item? && second.payload.Item?
    ensures first.payload.product.id == second.payload.product.id
    ensures first.payload.product.id !in old(c.rows)
  {
    first := c.Create(body);
    var removed := c.Delete(first.payload.product.id);
    assert c.rows == old(c.rows);
    second := c.Create(body);
    NextRowIdUnique(old(c.rows).Keys, first.payload.product.id, second.payload.product.id);
  }

  /** On an empty store the listing is `[]` and a lookup finds nothing. */
  method EmptyStore() returns (listed: Response, fetched: Response)
    ensures listed == Response(200, Items([]))
    ensures fetched == Response(404, Failure(NOT_FOUND))
  {
    var c := new Catalogue();
    listed := c.List();
    fetched := c.Get(99999);
  }

  /** Updating only `precio` of `{nombre: "A", precio: 10, stock: 5}` leaves
      the name and the stock as they were. */
  method PriceOnlyUpdate() returns (created: Response, updated: Response)
    ensures created == Response(201, Item(Product(1, "A", None, 10.0, 5)))
    ensures updated == Response(200, Item(Product(1, "A", None, 12.0, 5)))
  {
    var c := new Catalogue();
    var body := map["nombre" := JStr("A"), "precio" := JInt(10), "stock" := JInt(5)];
    assert LoadFull(body) == Loaded(Draft("A", None, 10.0, 5)) by {
      assert Faults(body, false) == {};
    }
    created := c.Create(body);
    var change := map["precio" := JInt(12)];
    assert LoadPartial(change) == Loaded(Patch(None, None, Some(12.0), None)) by {
      assert Faults(change, true) == {};
    }
    updated := c.Update(1, change);
  }

  /** A create whose price and stock are both negative reports the price. */
  method BothNegativeReportsPrice(c: Catalogue) returns (resp: Response)
    requires c.Valid()
    modifies c
    ensures resp == Response(400, Failure(PRECIO_NEGATIVO))
    ensures c.rows == old(c.rows)
  {
    var body := map["nombre" := JStr("Teclado"), "precio" := JFloat(-1.5), "stock" := JInt(-3)];
    assert LoadFull(body) == Loaded(Draft("Teclado", None, -1.5, -3)) by {
      assert Faults(body, false) == {};
    }
    resp := c.Create(body);
  }
}
