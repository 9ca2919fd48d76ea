/** The `productos` table: the one entity of the catalogue and the constraints
    its column declarations put on a row. */
module Models {

  /** A nullable column value; `None` is SQL NULL. */
  datatype Option<T> = None | Some(value: T)

  /** Declared width of `nombre`, a String(100) column. */
  const NOMBRE_MAX: nat := 100

  /** Declared width of `descripcion`, a String(255) column. */
  const DESCRIPCION_MAX: nat := 255

  /** One row of `productos`. `id` is the integer primary key the store assigns,
      `descripcion` is the only nullable column, and `precio`, a Float column,
      is kept as an exact real: the handlers only compare it with zero and copy it. */
  datatype Product = Product(
    id: int,
    nombre: string,
    descripcion: Option<string>,
    precio: real,
    stock: int)

  /** The column declarations: `nombre` at most 100 characters, `descripcion`
      NULL or at most 255 characters. `precio` and `stock` are NOT NULL, which
      their (non-optional) types already say. */
  predicate FitsColumns(p: Product)
  {
    && |p.nombre| <= NOMBRE_MAX
    && (p.descripcion.Some? ==> |p.descripcion.value| <= DESCRIPCION_MAX)
  }

  /** The business rule the handlers enforce before anything is stored. */
  predicate NonNegative(p: Product)
  {
    p.precio >= 0.0 && p.stock >= 0
  }

  /** What every stored row satisfies. */
  predicate Storable(p: Product)
  {
    FitsColumns(p) && NonNegative(p)
  }
}
