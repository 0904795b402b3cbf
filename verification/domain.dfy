/**
 The persistent book entity (`Livro`) and the Java integer widths its fields
 carry. The entity's class is not part of this model: its shape is the seven
 fields, in the order the DTO's conversions pass them to its constructor and
 read them back.
 */
module Domain {

  /** Java `int`: the width of `quantidadeDisponivel`. */
  newtype Int32 = x: int | -0x8000_0000 <= x < 0x8000_0000

  /** Java `long`: the width of every surrogate id. */
  newtype Int64 = x: int | -0x8000_0000_0000_0000 <= x < 0x8000_0000_0000_0000

  /** A catalogued book as the repository stores it. */
  datatype Livro = Livro(
    id: Int64,
    cdu: string,
    titulo: string,
    autor: string,
    editora: string,
    quantidadeDisponivel: Int32,
    status: string)
}
