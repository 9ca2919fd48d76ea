/** The schema generated from the `productos` columns: how a JSON request body
    is validated and turned into field values, and how a row is serialised back. */
module Schemas {
  import opened Models

  /** A JSON value as it appears under one key of a request body. `JInt` is a
      number literal without fraction or exponent, `JFloat` any other number. */
  datatype Json = JNull | JBool(b: bool) | JInt(i: int) | JFloat(r: real) | JStr(s: string)

  /** A request body: a JSON object, field name to value. */
  type Body = map<string, Json>

  /** Every field of the generated schema, one per column. */
  const FIELDS: set<string> := {"id", "nombre", "descripcion", "precio", "stock"}

  /** The NOT NULL columns without a default; `id` is autoincremented, so not required. */
  const REQUIRED: set<string> := {"nombre", "precio", "stock"}

  predicate IsNumber(v: Json)
  {
    v.JInt? || v.JFloat?
  }

  function NumberValue(v: Json): real
    requires IsNumber(v)
  {
    if v.JInt? then v.i as real else v.r
  }

  /** A nullable string column as JSON. */
  function Nullable(d: Option<string>): Json
  {
    match d
    case None => JNull
    case Some(s) => JStr(s)
  }

  /** A nullable string column read back from JSON already known to conform. */
  function FromNullable(v: Json): Option<string>
  {
    if v.JStr? then Some(v.s) else None
  }

  /** Whether the schema field generated for column `field` accepts `v`: a
      String(n) field takes a string of at most n characters, a Float field any
      number, an Integer field an integer, and only the nullable column takes null. */
  predicate Conforms(field: string, v: Json)
  {
    if field == "id" then v.JInt?
    else if field == "nombre" then v.JStr? && |v.s| <= NOMBRE_MAX
    else if field == "descripcion" then v.JNull? || (v.JStr? && |v.s| <= DESCRIPCION_MAX)
    else if field == "precio" then IsNumber(v)
    else if field == "stock" then v.JInt?
    else false
  }

  /** The outcome of loading a body: the field values, or the names of the
      fields that failed (the keys of the error's `mensajes`). */
  datatype Loaded<T> = Loaded(value: T) | Rejected(fields: set<string>)

  /** What a full load yields: a product without its id, which the store assigns. */
  datatype Draft = Draft(nombre: string, descripcion: Option<string>, precio: real, stock: int)

  /** What a partial load yields: `None` for a field the body does not carry. */
  datatype Patch = Patch(
    nombre: Option<string>,
    descripcion: Option<Option<string>>,
    precio: Option<real>,
    stock: Option<int>)

  /** The row a draft becomes once the store gives it an id. */
  function Row(id: int, d: Draft): Product
  {
    Product(id, d.nombre, d.descripcion, d.precio, d.stock)
  }

  /** Fields the load reports: keys whose value the schema refuses, unknown keys
      unless `partial` (then they are excluded), and missing required fields
      unless `partial`. */
  function Faults(body: Body, partial: bool): set<string>
  {
    (set f | f in body && (if f in FIELDS then !Conforms(f, body[f]) else !partial))
    + (if partial then {} else set f | f in REQUIRED && f !in body)
  }

  /** A full load reports nothing exactly when every required field is present
      and every key is a column whose field accepts its value. */
  lemma FullFaultsEmpty(body: Body)
    ensures Faults(body, false) == {} <==>
      REQUIRED <= body.Keys && forall f :: f in body ==> f in FIELDS && Conforms(f, body[f])
  {
    var faults := Faults(body, false);
    if faults == {} {
      forall f | f in REQUIRED ensures f in body {
        assert f !in faults;
      }
      forall f | f in body ensures f in FIELDS && Conforms(f, body[f]) {
        assert f !in faults;
      }
    }
    if REQUIRED <= body.Keys && forall f :: f in body ==> f in FIELDS && Conforms(f, body[f]) {
      forall f ensures f !in faults {
      }
      assert faults == {};
    }
  }

  /** A full load, as the create handler runs it (unknown keys are refused). */
  function LoadFull(body: Body): (r: Loaded<Draft>)
    ensures r.Loaded? <==>
      REQUIRED <= body.Keys && forall f :: f in body ==> f in FIELDS && Conforms(f, body[f])
    ensures r.Rejected? ==>
      && r.fields != {}
      && forall f :: f in r.fields <==>
           (f in body && !(f in FIELDS && Conforms(f, body[f]))) || (f in REQUIRED && f !in body)
    ensures r.Loaded? ==>
      && JStr(r.value.nombre) == body["nombre"]
      && ("descripcion" in body ==> Nullable(r.value.descripcion) == body["descripcion"])
      && ("descripcion" !in body ==> r.value.descripcion == None)
      && IsNumber(body["precio"]) && r.value.precio == NumberValue(body["precio"])
      && JInt(r.value.stock) == body["stock"]
  {
    var faults := Faults(body, false);
    FullFaultsEmpty(body);
    if faults != {} then
      Rejected(faults)
    else
      assert "nombre" in REQUIRED && "precio" in REQUIRED && "stock" in REQUIRED;
      Loaded(Draft(
        body["nombre"].s,
        if "descripcion" in body then FromNullable(body["descripcion"]) else None,
        NumberValue(body["precio"]),
        body["stock"].i))
  }

  /** A partial load, as the update handler runs it (unknown keys are excluded). */
  function LoadPartial(body: Body): (r: Loaded<Patch>)
    ensures r.Loaded? <==> forall f :: f in body && f in FIELDS ==> Conforms(f, body[f])
    ensures r.Rejected? ==>
      && r.fields != {}
      && forall f :: f in r.fields <==> f in body && f in FIELDS && !Conforms(f, body[f])
    ensures r.Loaded? ==>
      && (r.value.nombre.Some? <==> "nombre" in body)
      && (r.value.nombre.Some? ==> JStr(r.value.nombre.value) == body["nombre"])
      && (r.value.descripcion.Some? <==> "descripcion" in body)
      && (r.value.descripcion.Some? ==> Nullable(r.value.descripcion.value) == body["descripcion"])
      && (r.value.precio.Some? <==> "precio" in body)
      && (r.value.precio.Some? ==> IsNumber(body["precio"]) && r.value.precio.value == NumberValue(body["precio"]))
      && (r.value.stock.Some? <==> "stock" in body)
      && (r.value.stock.Some? ==> JInt(r.value.stock.value) == body["stock"])
  {
    var faults := Faults(body, true);
    if faults != {} then
      Rejected(faults)
    else
      assert forall f :: f in body && f in FIELDS ==> f !in faults;
      Loaded(Patch(
        if "nombre" in body then Some(body["nombre"].s) else None,
        if "descripcion" in body then Some(FromNullable(body["descripcion"])) else None,
        if "precio" in body then Some(NumberValue(body["precio"])) else None,
        if "stock" in body then Some(body["stock"].i) else None))
  }

  /** Serialisation of a row: all five fields. */
  function Dump(p: Product): (obj: Body)
    ensures obj.Keys == FIELDS
  {
    map[
      "id" := JInt(p.id),
      "nombre" := JStr(p.nombre),
      "descripcion" := Nullable(p.descripcion),
      "precio" := JFloat(p.precio),
      "stock" := JInt(p.stock)]
  }

  /** A loaded draft fits the column widths, whatever id the store then gives it. */
  lemma LoadedRowFitsColumns(body: Body, id: int)
    requires LoadFull(body).Loaded?
    ensures FitsColumns(Row(id, LoadFull(body).value))
  {
  }

  /** Loading what a row serialises to gives that row's fields back, in both
      the full and the partial mode. */
  lemma LoadDumpRoundTrip(p: Product)
    requires FitsColumns(p)
    ensures LoadFull(Dump(p)) == Loaded(Draft(p.nombre, p.descripcion, p.precio, p.stock))
    ensures LoadPartial(Dump(p)) == Loaded(Patch(Some(p.nombre), Some(p.descripcion), Some(p.precio), Some(p.stock)))
  {
  }

  /** Serialising the row made from a loaded body gives back every value the
      body sent, `null` for an absent `descripcion`, and the assigned id. */
  lemma DumpLoadRoundTrip(body: Body, id: int)
    requires LoadFull(body).Loaded?
    ensures var out := Dump(Row(id, LoadFull(body).value));
      && out["id"] == JInt(id)
      && out["nombre"] == body["nombre"]
      && out["stock"] == body["stock"]
      && NumberValue(out["precio"]) == NumberValue(body["precio"])
      && ("descripcion" in body ==> out["descripcion"] == body["descripcion"])
      && ("descripcion" !in body ==> out["descripcion"] == JNull)
  {
  }

  /** A key with no column behind it has no effect on a partial load. */
  lemma LoadPartialIgnoresUnknownKeys(body: Body, key: string, v: Json)
    requires key !in FIELDS
    ensures LoadPartial(body[key := v]) == LoadPartial(body)
  {
  }
}
