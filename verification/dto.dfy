/**
 `LivroDto`, the transfer object of the book catalogue, and its conversions
 to and from the entity. Each conversion is a seven-field copy, and the list
 conversions map it over a list, keeping length and order.
 */
module Dto {

  import opened Domain

  /**
   The description of `StatusLivroEnum.DISPONIVEL`. The enum is not part of
   this model, so the text is a stand-in; every property below is stated
   against this constant and holds whatever its text is.
   */
  const StatusDisponivel: string := "DISPONIVEL"

  datatype LivroDto = LivroDto(
    id: Int64,
    cdu: string,
    titulo: string,
    autor: string,
    editora: string,
    quantidadeDisponivel: Int32,
    status: string)

  /**
   A DTO built the way a request body builds one: the no-argument
   constructor, then a setter for every field but `status`, which therefore
   keeps its field initialiser.
   */
  function NewLivroDto(id: Int64, cdu: string, titulo: string, autor: string,
                       editora: string, quantidadeDisponivel: Int32): (d: LivroDto)
    ensures d.status == StatusDisponivel
    ensures d.id == id && d.cdu == cdu && d.titulo == titulo && d.autor == autor
    ensures d.editora == editora && d.quantidadeDisponivel == quantidadeDisponivel
  {
    LivroDto(id, cdu, titulo, autor, editora, quantidadeDisponivel, StatusDisponivel)
  }

  /** Converts a DTO into an entity. */
  function ToLivro(dto: LivroDto): Livro
  {
    Livro(dto.id, dto.cdu, dto.titulo, dto.autor, dto.editora,
          dto.quantidadeDisponivel, dto.status)
  }

  /** Converts an entity into a DTO. */
  function FromLivro(entity: Livro): LivroDto
  {
    LivroDto(entity.id, entity.cdu, entity.titulo, entity.autor, entity.editora,
             entity.quantidadeDisponivel, entity.status)
  }

  /** Converting a DTO to an entity and back gives the DTO again, all seven fields. */
  lemma DtoRoundTrip(dto: LivroDto)
    ensures FromLivro(ToLivro(dto)) == dto
  {
  }

  /** Converting an entity to a DTO and back gives the entity again, `id` included. */
  lemma EntityRoundTrip(entity: Livro)
    ensures ToLivro(FromLivro(entity)) == entity
  {
  }

  /** The conversions lose nothing: distinct inputs give distinct outputs. */
  lemma ConversionsInjective(d1: LivroDto, d2: LivroDto, e1: Livro, e2: Livro)
    ensures ToLivro(d1) == ToLivro(d2) <==> d1 == d2
    ensures FromLivro(e1) == FromLivro(e2) <==> e1 == e2
  {
    DtoRoundTrip(d1);
    DtoRoundTrip(d2);
    EntityRoundTrip(e1);
    EntityRoundTrip(e2);
  }

  /** `toConvertList`: `ToLivro` applied to every element, in order. */
  function ToConvertList(dtos: seq<LivroDto>): (entities: seq<Livro>)
    ensures |entities| == |dtos|
    ensures forall i :: 0 <= i < |dtos| ==> entities[i] == ToLivro(dtos[i])
  {
    if dtos == [] then [] else [ToLivro(dtos[0])] + ToConvertList(dtos[1..])
  }

  /** `fromConvertList`: `FromLivro` applied to every element, in order. */
  function FromConvertList(entities: seq<Livro>): (dtos: seq<LivroDto>)
    ensures |dtos| == |entities|
    ensures forall i :: 0 <= i < |entities| ==> dtos[i] == FromLivro(entities[i])
  {
    if entities == [] then [] else [FromLivro(entities[0])] + FromConvertList(entities[1..])
  }

  /** The list conversions are inverse to each other in both directions. */
  lemma ListRoundTrips(dtos: seq<LivroDto>, entities: seq<Livro>)
    ensures FromConvertList(ToConvertList(dtos)) == dtos
    ensures ToConvertList(FromConvertList(entities)) == entities
  {
    var back := FromConvertList(ToConvertList(dtos));
    forall i | 0 <= i < |dtos| ensures back[i] == dtos[i] {
      DtoRoundTrip(dtos[i]);
    }
    var there := ToConvertList(FromConvertList(entities));
    forall i | 0 <= i < |entities| ensures there[i] == entities[i] {
      EntityRoundTrip(entities[i]);
    }
  }
}
