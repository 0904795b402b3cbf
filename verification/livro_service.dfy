/**
 `LivroService`, the book catalogue service, as pure operations over the
 repository's contents. Every operation returns its outcome together with the
 store it leaves behind; read-only operations return the outcome alone.

 The service's methods return `Object`, and they hand errors back in two
 ways: most throw them, but `delete` returns its not-found exception as an
 ordinary value. `Outcome` keeps the two channels apart.
 */
module LivroService {

  import opened Domain
  import opened Dto
  import opened Repository
  import opened Listing

  /** The key a not-found error names. */
  datatype Key = ById(id: Int64) | ByCdu(cdu: string) | ByTitulo(titulo: string)

  /** The service's exception classes. */
  datatype ServiceError =
    | ResourceNotFound(key: Key)
    | Conflict(titulo: string)
    | InternalServerError(message: string)

  /** What a service method hands back as `Object`. */
  datatype Reply = Book(dto: LivroDto) | Text(message: string) | Error(error: ServiceError)

  /** Whether an error was thrown, or a value (possibly an exception object) returned. */
  datatype Outcome = Thrown(error: ServiceError) | Returned(value: Reply)

  /** The outcome of an operation that may write, and the store after it. */
  datatype Response = Response(outcome: Outcome, store: Store)

  const DeletedMessage: string := "Livro excluído com sucesso!"
  const LookupFailedMessage: string := "Erro ao buscar o livro!"

  /**
   `save`: registers a book unless its title is taken. The repository
   generates the id; `newId` stands for whatever unused id it picks.
   */
  function Save(store: Store, dto: LivroDto, newId: Int64): (r: Response)
    requires newId !in store
    ensures ExistsByTitulo(store, dto.titulo) <==> r.outcome == Thrown(Conflict(dto.titulo))
    ensures ExistsByTitulo(store, dto.titulo) ==> r.store == store
    ensures !ExistsByTitulo(store, dto.titulo) ==>
      && r.store.Keys == store.Keys + {newId}
      && |r.store| == |store| + 1
      && (forall k :: k in store ==> r.store[k] == store[k])
      && FromLivro(r.store[newId]) == dto.(id := newId)
      && r.outcome == Returned(Book(dto.(id := newId)))
  {
    if ExistsByTitulo(store, dto.titulo) then
      Response(Thrown(Conflict(dto.titulo)), store)
    else
      var livro := ToLivro(dto).(id := newId);
      DtoRoundTrip(dto.(id := newId));
      Response(Returned(Book(FromLivro(livro))), store[newId := livro])
  }

  /** The stored record carries the value the key looks for. */
  predicate HasKey(livro: Livro, key: Key)
  {
    match key
    case ById(id) => livro.id == id
    case ByCdu(cdu) => livro.cdu == cdu
    case ByTitulo(titulo) => livro.titulo == titulo
  }

  /** The ids of the stored records that a repository query by `key` matches. */
  function Matches(store: Store, key: Key): (m: set<Int64>)
    ensures m <= store.Keys
    ensures forall k :: k in m <==> k in store && HasKey(store[k], key)
  {
    set k | k in store && HasKey(store[k], key)
  }

  /**
   A lookup through a repository query returning `Optional`: no match is
   thrown as not-found, one match is returned as its DTO, and more than one
   makes the query fail, which the service turns into a returned internal
   error.
   */
  function Lookup(store: Store, key: Key): (r: Outcome)
    ensures Matches(store, key) == {} <==> r == Thrown(ResourceNotFound(key))
    ensures |Matches(store, key)| == 1 <==> r.Returned? && r.value.Book?
    ensures r.Returned? && r.value.Book? ==>
      Matches(store, key) == {r.value.dto.id} && ToLivro(r.value.dto) == store[r.value.dto.id]
    ensures |Matches(store, key)| > 1 <==> r == Returned(Error(InternalServerError(LookupFailedMessage)))
  {
    var matches := Matches(store, key);
    if matches == {} then Thrown(ResourceNotFound(key))
    else if |matches| == 1 then
      assert forall a | a in matches :: matches == {a} by {
        forall a | a in matches ensures matches == {a} {
          assert |matches - {a}| == 0;
        }
      }
      var k :| k in matches;
      Returned(Book(FromLivro(store[k])))
    else Returned(Error(InternalServerError(LookupFailedMessage)))
  }

  /** `findById`: the primary key matches at most one record, so the lookup never fails. */
  function FindById(store: Store, id: Int64): (r: Outcome)
    ensures id !in store <==> r == Thrown(ResourceNotFound(ById(id)))
    ensures id in store ==> r.Returned? && r.value.Book? && ToLivro(r.value.dto) == store[id]
  {
    assert Matches(store, ById(id)) == if id in store then {id} else {};
    Lookup(store, ById(id))
  }

  /** `findByCdu`. */
  function FindByCdu(store: Store, cdu: string): (r: Outcome)
    ensures (forall k :: k in store ==> store[k].cdu != cdu) <==> r == Thrown(ResourceNotFound(ByCdu(cdu)))
    ensures r.Returned? && r.value.Book? ==>
      var k := r.value.dto.id;
      && k in store && ToLivro(r.value.dto) == store[k] && store[k].cdu == cdu
      && (forall j :: j in store && store[j].cdu == cdu ==> j == k)
    ensures |Matches(store, ByCdu(cdu))| == 1 ==> r.Returned? && r.value.Book?
    ensures |Matches(store, ByCdu(cdu))| > 1 ==> r == Returned(Error(InternalServerError(LookupFailedMessage)))
  {
    var matches := Matches(store, ByCdu(cdu));
    assert (forall k :: k in store ==> store[k].cdu != cdu) <==> matches == {} by {
      if matches != {} {
        var k :| k in matches;
      }
    }
    Lookup(store, ByCdu(cdu))
  }

  /** `findByTitulo`. */
  function FindByTitulo(store: Store, titulo: string): (r: Outcome)
    ensures !ExistsByTitulo(store, titulo) <==> r == Thrown(ResourceNotFound(ByTitulo(titulo)))
    ensures r.Returned? && r.value.Book? ==>
      var k := r.value.dto.id;
      && k in store && ToLivro(r.value.dto) == store[k] && store[k].titulo == titulo
      && (forall j :: j in store && store[j].titulo == titulo ==> j == k)
    ensures |Matches(store, ByTitulo(titulo))| == 1 ==> r.Returned? && r.value.Book?
    ensures |Matches(store, ByTitulo(titulo))| > 1 ==> r == Returned(Error(InternalServerError(LookupFailedMessage)))
  {
    var matches := Matches(store, ByTitulo(titulo));
    assert !ExistsByTitulo(store, titulo) <==> matches == {} by {
      if matches != {} {
        var k :| k in matches;
      }
    }
    Lookup(store, ByTitulo(titulo))
  }

  /** `getAll`: every stored book once, as its DTO, by ascending id. */
  method GetAll(store: Store) returns (r: seq<LivroDto>)
    ensures SortedListing(r, store)
    ensures |r| == |store|
  {
    r := SortById(store);
  }

  /** The books with at least one copy available. */
  function Available(store: Store): (a: Store)
    ensures a.Keys <= store.Keys
    ensures forall k :: k in a <==> k in store && store[k].quantidadeDisponivel > 0
    ensures forall k :: k in a ==> a[k] == store[k]
  {
    map k | k in store && store[k].quantidadeDisponivel > 0 :: store[k]
  }

  /**
   `findAllByDisponiveis`: the books with `quantidadeDisponivel > 0`, each once,
   as DTOs by ascending id. The service filters the entities before it converts
   and sorts them.
   */
  method FindAllByDisponiveis(store: Store) returns (r: seq<LivroDto>)
    ensures SortedListing(r, Available(store))
    ensures forall i :: 0 <= i < |r| ==> r[i].quantidadeDisponivel > 0
  {
    r := SortById(Available(store));
  }

  /** Keeps the entries of a listing with an available copy, in order. */
  function KeepAvailable(xs: seq<LivroDto>): (r: seq<LivroDto>)
    ensures forall y :: y in r <==> y in xs && y.quantidadeDisponivel > 0
    ensures Ascending(xs) ==> Ascending(r)
  {
    if xs == [] then []
    else
      var rest := KeepAvailable(xs[1..]);
      if xs[0].quantidadeDisponivel > 0 then
        assert Ascending(xs) ==> forall y :: y in rest ==> xs[0].id < y.id;
        [xs[0]] + rest
      else rest
  }

  /**
   The available listing is the full listing with the unavailable books taken
   out: a subsequence of what `getAll` returns, in the same order.
   */
  lemma DisponiveisFiltersGetAll(all: seq<LivroDto>, avail: seq<LivroDto>, store: Store)
    requires SortedListing(all, store)
    requires SortedListing(avail, Available(store))
    ensures avail == KeepAvailable(all)
  {
    var kept := KeepAvailable(all);
    var a := Available(store);
    forall i | 0 <= i < |kept| ensures kept[i].id in a && kept[i] == FromLivro(a[kept[i].id]) {
      assert kept[i] in kept;
      var j :| 0 <= j < |all| && all[j] == kept[i];
    }
    forall k | k in a ensures k in Ids(kept) {
      var j :| 0 <= j < |all| && Ids(all)[j] == k;
      assert all[j] in kept;
      var i :| 0 <= i < |kept| && kept[i] == all[j];
      assert Ids(kept)[i] == k;
    }
    ListingUnique(avail, kept, a);
  }

  /**
   `update`: every field but `id` is copied from the DTO onto the stored
   record. The title is not checked against the other books.
   */
  function Update(store: Store, dto: LivroDto, id: Int64): (r: Response)
    ensures id !in store <==> r.outcome == Thrown(ResourceNotFound(ById(id)))
    ensures id !in store ==> r.store == store
    ensures id in store ==>
      && r.store.Keys == store.Keys
      && (forall k :: k in store && k != id ==> r.store[k] == store[k])
      && FromLivro(r.store[id]) == dto.(id := id)
      && r.outcome == Returned(Book(dto.(id := id)))
  {
    if id !in store then
      Response(Thrown(ResourceNotFound(ById(id))), store)
    else
      var livro := ToLivro(dto).(id := id);
      DtoRoundTrip(dto.(id := id));
      Response(Returned(Book(FromLivro(livro))), store[id := livro])
  }

  /**
   `delete`: removes the book. An absent id is not thrown: the not-found
   exception comes back as the returned value.
   */
  function Delete(store: Store, id: Int64): (r: Response)
    ensures r.outcome.Returned?
    ensures id !in store <==> r.outcome.value == Error(ResourceNotFound(ById(id)))
    ensures id !in store ==> r.store == store
    ensures id in store ==>
      && r.outcome.value == Text(DeletedMessage)
      && r.store.Keys == store.Keys - {id}
      && (forall k :: k in r.store ==> r.store[k] == store[k])
  {
    if id !in store then
      Response(Returned(Error(ResourceNotFound(ById(id)))), store)
    else
      Response(Returned(Text(DeletedMessage)), store - {id})
  }

  // The catalogue as a state machine: title uniqueness and the error channels.

  /** Registration keeps titles unique. */
  lemma SavePreservesUniqueTitles(store: Store, dto: LivroDto, newId: Int64)
    requires newId !in store
    requires UniqueTitles(store)
    ensures UniqueTitles(Save(store, dto, newId).store)
  {
  }

  /** After an update the titles stay unique exactly when no other book already had the new title. */
  lemma UpdateUniqueTitlesExactly(store: Store, dto: LivroDto, id: Int64)
    requires UniqueTitles(store)
    requires id in store
    ensures UniqueTitles(Update(store, dto, id).store) <==>
      forall k :: k in store && k != id ==> store[k].titulo != dto.titulo
  {
    var s := Update(store, dto, id).store;
    assert s[id].titulo == dto.titulo by { assert FromLivro(s[id]).titulo == dto.titulo; }
    if !forall k :: k in store && k != id ==> store[k].titulo != dto.titulo {
      var k :| k in store && k != id && store[k].titulo == dto.titulo;
      assert s[k].titulo == s[id].titulo;
    }
  }

  /** An update succeeds even when it gives a book another book's title, breaking uniqueness. */
  lemma UpdateCanDuplicateTitles()
    ensures var store: Store := map[1 := Livro(1, "869.3", "Dom Casmurro", "Machado de Assis", "Garnier", 2, StatusDisponivel),
                                    2 := Livro(2, "869.1", "Os Lusiadas", "Camoes", "Garnier", 1, StatusDisponivel)];
            var r := Update(store, NewLivroDto(2, "869.1", "Dom Casmurro", "Camoes", "Garnier", 1), 2);
            && UniqueTitles(store)
            && r.outcome.Returned?
            && !UniqueTitles(r.store)
  {
    var store: Store := map[1 := Livro(1, "869.3", "Dom Casmurro", "Machado de Assis", "Garnier", 2, StatusDisponivel),
                            2 := Livro(2, "869.1", "Os Lusiadas", "Camoes", "Garnier", 1, StatusDisponivel)];
    UpdateUniqueTitlesExactly(store, NewLivroDto(2, "869.1", "Dom Casmurro", "Camoes", "Garnier", 1), 2);
  }

  /** Deleting keeps titles unique. */
  lemma DeletePreservesUniqueTitles(store: Store, id: Int64)
    requires UniqueTitles(store)
    ensures UniqueTitles(Delete(store, id).store)
  {
  }

  /** For an absent id, `delete` returns the very exception that `findById` and `update` throw. */
  lemma DeleteReturnsWhatOthersThrow(store: Store, dto: LivroDto, id: Int64)
    requires id !in store
    ensures var e := ResourceNotFound(ById(id));
            && Delete(store, id).outcome == Returned(Error(e))
            && FindById(store, id) == Thrown(e)
            && Update(store, dto, id).outcome == Thrown(e)
  {
  }

  /** A book whose CDU no other book shares is found by that CDU, as its DTO. */
  lemma FindByCduOfUniqueCdu(store: Store, k: Int64)
    requires k in store
    requires forall j :: j in store && store[j].cdu == store[k].cdu ==> j == k
    ensures FindByCdu(store, store[k].cdu) == Returned(Book(FromLivro(store[k])))
  {
    assert Matches(store, ByCdu(store[k].cdu)) == {k};
    var r := FindByCdu(store, store[k].cdu);
    EntityRoundTrip(store[k]);
    DtoRoundTrip(r.value.dto);
  }

  /** Two books sharing a CDU make the lookup by that CDU return the internal error. */
  lemma FindByCduOfSharedCdu(store: Store, j: Int64, k: Int64)
    requires j in store && k in store && j != k
    requires store[j].cdu == store[k].cdu
    ensures FindByCdu(store, store[k].cdu) == Returned(Error(InternalServerError(LookupFailedMessage)))
  {
    var m := Matches(store, ByCdu(store[k].cdu));
    assert {j, k} <= m;
    assert |{j, k}| == 2;
  }

  /** While titles are unique, every stored book is found by its title, as its DTO. */
  lemma FindByTituloUnderUniqueTitles(store: Store, k: Int64)
    requires UniqueTitles(store)
    requires k in store
    ensures FindByTitulo(store, store[k].titulo) == Returned(Book(FromLivro(store[k])))
  {
    assert Matches(store, ByTitulo(store[k].titulo)) == {k};
    var r := FindByTitulo(store, store[k].titulo);
    EntityRoundTrip(store[k]);
    DtoRoundTrip(r.value.dto);
  }

  /** A registered book can be found again by id and, with titles unique, by title. */
  lemma SaveThenFind(store: Store, dto: LivroDto, newId: Int64)
    requires newId !in store
    requires !ExistsByTitulo(store, dto.titulo)
    ensures var s := Save(store, dto, newId).store;
            && FindById(s, newId) == Returned(Book(dto.(id := newId)))
            && FindByTitulo(s, dto.titulo) == Returned(Book(dto.(id := newId)))
  {
    var s := Save(store, dto, newId).store;
    assert Matches(s, ByTitulo(dto.titulo)) == {newId};
    EntityRoundTrip(s[newId]);
  }

  /** An update is visible to a later lookup by id. */
  lemma UpdateThenFindById(store: Store, dto: LivroDto, id: Int64)
    requires id in store
    ensures FindById(Update(store, dto, id).store, id) == Returned(Book(dto.(id := id)))
  {
    var s := Update(store, dto, id).store;
    EntityRoundTrip(s[id]);
  }

  /** A deleted book is gone: looking it up again throws not-found, and deleting it again returns not-found. */
  lemma DeleteThenFindById(store: Store, id: Int64)
    requires id in store
    ensures var s := Delete(store, id).store;
            && FindById(s, id) == Thrown(ResourceNotFound(ById(id)))
            && Delete(s, id) == Response(Returned(Error(ResourceNotFound(ById(id)))), s)
  {
  }
}
