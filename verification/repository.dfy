/**
 The book repository, modelled as its contents: a finite map from id to the
 stored record. Every record sits under its own id.
 */
module Repository {

  import opened Domain

  type Store = m: map<Int64, Livro> | forall k :: k in m ==> m[k].id == k

  /** `existsByTitulo`: some stored book carries this title. */
  predicate ExistsByTitulo(store: Store, titulo: string)
  {
    exists k :: k in store && store[k].titulo == titulo
  }

  /** The catalogue invariant that registration protects: no two books share a title. */
  predicate UniqueTitles(store: Store)
  {
    forall j, k :: j in store && k in store && store[j].titulo == store[k].titulo ==> j == k
  }
}
