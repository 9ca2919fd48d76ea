/** The five request handlers of the product API, run against the product table. */
module App {
  import opened Models
  import opened Schemas

  const INVALID_INPUT: string := "Datos de entrada inválidos"
  const PRECIO_NEGATIVO: string := "El precio no puede ser negativo"
  const STOCK_NEGATIVO: string := "El stock no puede ser negativo"
  const PRECIO_INVALIDO: string := "El precio debe ser un número no negativo"
  const STOCK_INVALIDO: string := "El stock debe ser un entero no negativo"
  const NOT_FOUND: string := "Producto no encontrado"
  const DELETED: string := "Producto eliminado correctamente"

  /** A response body. `Item` and `Items` are sent serialised with `Dump`;
      `Notice` is `{"mensaje": ...}`, `Failure` is `{"error": ...}` and
      `Invalid` is `{"error": ..., "mensajes": ...}` keyed by the failed fields. */
  datatype Payload =
    | Item(product: Product)
    | Items(products: seq<Product>)
    | Notice(mensaje: string)
    | Failure(error: string)
    | Invalid(error: string, fields: set<string>)

  datatype Response = Response(status: int, payload: Payload)

  /** The id SQLite gives a new row of a table without AUTOINCREMENT: one more
      than the largest id in use, or 1 when the table is empty. */
  ghost predicate IsNextRowId(ids: set<int>, n: int)
  {
    && (forall k :: k in ids ==> k < n)
    && (if ids == {} then n == 1 else n - 1 in ids)
  }

  /** The rule determines the id: two candidates for the same table agree. */
  lemma NextRowIdUnique(ids: set<int>, m: int, n: int)
    requires IsNextRowId(ids, m) && IsNextRowId(ids, n)
    ensures m == n
  {
  }

  /** A non-empty set of ids has a member to pick. */
  lemma NonEmptyHasMember(ids: set<int>)
    requires ids != {}
    ensures exists k :: k in ids
  {
    if forall k :: k !in ids {
      assert false;
    }
  }

  /** `ps` lists every row of `rows` once, in ascending id order (the order a
      scan of a rowid table yields). */
  ghost predicate Enumerates(rows: map<int, Product>, ps: seq<Product>)
  {
    && (forall j :: 0 <= j < |ps| ==> ps[j].id in rows && rows[ps[j].id] == ps[j])
    && rows.Keys <= Ids(ps)
    && (forall a, b :: 0 <= a < b < |ps| ==> ps[a].id < ps[b].id)
  }

  /** The ids a listing carries. */
  function Ids(ps: seq<Product>): set<int>
  {
    set j | 0 <= j < |ps| :: ps[j].id
  }

  lemma IdsAppend(ps: seq<Product>, p: Product)
    ensures Ids(ps + [p]) == Ids(ps) + {p.id}
  {
    var qs := ps + [p];
    forall x ensures x in Ids(qs) <==> x in Ids(ps) + {p.id} {
      if x in Ids(qs) {
        var j :| 0 <= j < |qs| && qs[j].id == x;
        if j < |ps| { assert ps[j].id == x; }
      }
      if x in Ids(ps) {
        var j :| 0 <= j < |ps| && ps[j].id == x;
        assert qs[j].id == x;
      }
      if x == p.id {
        assert qs[|ps|].id == x;
      }
    }
  }

  lemma {:induction false} IncreasingIdsAreDistinct(ps: seq<Product>)
    requires forall a, b :: 0 <= a < b < |ps| ==> ps[a].id < ps[b].id
    ensures |Ids(ps)| == |ps|
  {
    if ps != [] {
      var init := ps[..|ps| - 1];
      IncreasingIdsAreDistinct(init);
      IdsAppend(init, ps[|ps| - 1]);
      assert ps == init + [ps[|ps| - 1]];
      assert ps[|ps| - 1].id !in Ids(init);
    }
  }

  /** A listing holds exactly as many entries as the table has rows. */
  lemma EnumerationSize(rows: map<int, Product>, ps: seq<Product>)
    requires Enumerates(rows, ps)
    ensures |ps| == |rows|
  {
    IncreasingIdsAreDistinct(ps);
    assert Ids(ps) == rows.Keys;
  }

  /** The business-rule check of an update, on the loaded field values:
      price first, then stock. */
  function RuleViolation(u: Patch): Option<string>
  {
    if u.precio.Some? && u.precio.value < 0.0 then Some(PRECIO_INVALIDO)
    else if u.stock.Some? && u.stock.value < 0 then Some(STOCK_INVALIDO)
    else None
  }

  /** The row an accepted update leaves: the id and every field the body does
      not carry are kept, the others take the loaded values. */
  function Apply(p: Product, u: Patch): Product
  {
    Product(
      p.id,
      if u.nombre.Some? then u.nombre.value else p.nombre,
      if u.descripcion.Some? then u.descripcion.value else p.descripcion,
      if u.precio.Some? then u.precio.value else p.precio,
      if u.stock.Some? then u.stock.value else p.stock)
  }

  /** An accepted update touches exactly the fields whose keys the body
      carries, sets `descripcion` to NULL when it is sent as null, keeps the
      id, and leaves a storable row storable. */
  lemma ApplyTouchesOnlySentFields(p: Product, body: Body)
    requires LoadPartial(body).Loaded?
    ensures var q := Apply(p, LoadPartial(body).value);
      && q.id == p.id
      && ("nombre" in body ==> JStr(q.nombre) == body["nombre"])
      && ("nombre" !in body ==> q.nombre == p.nombre)
      && ("descripcion" in body ==> Nullable(q.descripcion) == body["descripcion"])
      && ("descripcion" in body && body["descripcion"] == JNull ==> q.descripcion == None)
      && ("descripcion" !in body ==> q.descripcion == p.descripcion)
      && ("precio" in body ==> q.precio == NumberValue(body["precio"]))
      && ("precio" !in body ==> q.precio == p.precio)
      && ("stock" in body ==> JInt(q.stock) == body["stock"])
      && ("stock" !in body ==> q.stock == p.stock)
    ensures Storable(p) && RuleViolation(LoadPartial(body).value).None? ==>
      Storable(Apply(p, LoadPartial(body).value))
  {
  }

  /** The product table, keyed by id. */
  class Catalogue {
    var rows: map<int, Product>

    /** Every row sits under its own id, which is positive (SQLite rowids start
        at 1), fits the columns and has non-negative price and stock. */
    ghost predicate Valid()
      reads this
    {
      forall k :: k in rows ==> k >= 1 && rows[k].id == k && Storable(rows[k])
    }

    constructor ()
      ensures Valid() && rows == map[]
    {
      rows := map[];
    }

    /** The id the store assigns on insert. */
    method NextRowId() returns (next: int)
      requires Valid()
      ensures IsNextRowId(rows.Keys, next)
      ensures next >= 1 && next !in rows
    {
      next := 1;
      var pending := rows.Keys;
      while pending != {}
        invariant pending <= rows.Keys
        invariant forall k :: k in rows && k !in pending ==> k < next
        invariant next == 1 || next - 1 in rows
        decreases pending
      {
        NonEmptyHasMember(pending);
        var k :| k in pending;
        if k >= next {
          next := k + 1;
        }
        pending := pending - {k};
      }
    }

    /** POST /productos. */
    method Create(body: Body) returns (resp: Response)
      requires Valid()
      modifies this
      ensures Valid()
      ensures resp.status in {201, 400}
      ensures resp.status == 400 ==> rows == old(rows)
      ensures !(REQUIRED <= body.Keys) ==> resp.status == 400
      ensures LoadFull(body).Rejected? ==>
        resp == Response(400, Invalid(INVALID_INPUT, LoadFull(body).fields))
      ensures LoadFull(body).Loaded? && LoadFull(body).value.precio < 0.0 ==>
        resp == Response(400, Failure(PRECIO_NEGATIVO))
      ensures LoadFull(body).Loaded? && LoadFull(body).value.precio >= 0.0 && LoadFull(body).value.stock < 0 ==>
        resp == Response(400, Failure(STOCK_NEGATIVO))
      ensures resp.status == 201 <==>
        LoadFull(body).Loaded? && LoadFull(body).value.precio >= 0.0 && LoadFull(body).value.stock >= 0
      ensures resp.status == 201 ==>
        && resp.payload.Item?
        && resp.payload.product == Row(resp.payload.product.id, LoadFull(body).value)
        && resp.payload.product.id !in old(rows)
        && IsNextRowId(old(rows).Keys, resp.payload.product.id)
        && rows == old(rows)[resp.payload.product.id := resp.payload.product]
    {
      var loaded := LoadFull(body);
      if loaded.Rejected? {
        return Response(400, Invalid(INVALID_INPUT, loaded.fields));
      }
      var draft := loaded.value;
      if draft.precio < 0.0 {
        return Response(400, Failure(PRECIO_NEGATIVO));
      }
      if draft.stock < 0 {
        return Response(400, Failure(STOCK_NEGATIVO));
      }
      var id := NextRowId();
      var p := Row(id, draft);
      LoadedRowFitsColumns(body, id);
      rows := rows[id := p];
      resp := Response(201, Item(p));
    }

    /** GET /productos. */
    method List() returns (resp: Response)
      requires Valid()
      ensures resp.status == 200 && resp.payload.Items?
      ensures Enumerates(rows, resp.payload.products)
      ensures rows == map[] ==> resp.payload.products == []
    {
      var bound := NextRowId();
      var ps: seq<Product> := [];
      var i := 1;
      while i < bound
        invariant 1 <= i <= bound
        invariant forall j :: 0 <= j < |ps| ==> ps[j].id in rows && rows[ps[j].id] == ps[j] && ps[j].id < i
        invariant forall k :: k in rows && k < i ==> k in Ids(ps)
        invariant forall a, b :: 0 <= a < b < |ps| ==> ps[a].id < ps[b].id
      {
        if i in rows {
          IdsAppend(ps, rows[i]);
          ps := ps + [rows[i]];
        }
        i := i + 1;
      }
      assert rows == map[] ==> ps == [] by {
        if ps != [] { assert ps[0].id in rows; }
      }
      resp := Response(200, Items(ps));
    }

    /** GET /productos/{id}. */
    method Get(id: nat) returns (resp: Response)
      requires Valid()
      ensures id in rows ==> resp == Response(200, Item(rows[id])) && resp.payload.product.id == id
      ensures id !in rows ==> resp == Response(404, Failure(NOT_FOUND))
    {
      if id !in rows {
        return Response(404, Failure(NOT_FOUND));
      }
      resp := Response(200, Item(rows[id]));
    }

    /** PUT /productos/{id}. The fields are assigned one at a time to the
        loaded row; a rule failure returns before the commit, so the table keeps
        its old row. */
    method Update(id: nat, body: Body) returns (resp: Response)
      requires Valid()
      modifies this
      ensures Valid()
      ensures resp.status != 200 ==> rows == old(rows)
      ensures id !in old(rows) ==> resp == Response(404, Failure(NOT_FOUND))
      ensures id in old(rows) && LoadPartial(body).Rejected? ==>
        resp == Response(400, Invalid(INVALID_INPUT, LoadPartial(body).fields))
      ensures id in old(rows) && LoadPartial(body).Loaded? && RuleViolation(LoadPartial(body).value).Some? ==>
        resp == Response(400, Failure(RuleViolation(LoadPartial(body).value).value))
      ensures resp.status == 200 <==>
        id in old(rows) && LoadPartial(body).Loaded? && RuleViolation(LoadPartial(body).value).None?
      ensures resp.status == 200 ==>
        && rows == old(rows)[id := Apply(old(rows)[id], LoadPartial(body).value)]
        && resp == Response(200, Item(rows[id]))
    {
      if id !in rows {
        return Response(404, Failure(NOT_FOUND));
      }
      var p := rows[id];
      var loaded := LoadPartial(body);
      if loaded.Rejected? {
        return Response(400, Invalid(INVALID_INPUT, loaded.fields));
      }
      ghost var u := loaded.value;
      if "nombre" in body {
        p := p.(nombre := body["nombre"].s);
      }
      if "descripcion" in body {
        p := p.(descripcion := FromNullable(body["descripcion"]));
      }
      if "precio" in body {
        var v := body["precio"];
        if !IsNumber(v) || NumberValue(v) < 0.0 {
          return Response(400, Failure(PRECIO_INVALIDO));
        }
        p := p.(precio := NumberValue(v));
      }
      if "stock" in body {
        var v := body["stock"];
        if !v.JInt? || v.i < 0 {
          return Response(400, Failure(STOCK_INVALIDO));
        }
        p := p.(stock := v.i);
      }
      ApplyTouchesOnlySentFields(rows[id], body);
      assert p == Apply(rows[id], u);
      rows := rows[id := p];
      resp := Response(200, Item(p));
    }

    /** DELETE /productos/{id}. */
    method Delete(id: nat) returns (resp: Response)
      requires Valid()
      modifies this
      ensures Valid()
      ensures id in old(rows) ==> resp == Response(200, Notice(DELETED)) && rows == old(rows) - {id}
      ensures id !in old(rows) ==> resp == Response(404, Failure(NOT_FOUND)) && rows == old(rows)
    {
      if id !in rows {
        return Response(404, Failure(NOT_FOUND));
      }
      rows := rows - {id};
      resp := Response(200, Notice(DELETED));
    }
  }
}
