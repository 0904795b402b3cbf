/**
 The frontend's loan model (`Emprestimo`): a record built by its constructor
 and one formatting helper that joins the loan's book titles, one per line.
 The reader record is opaque here: the model stores it and never looks inside,
 so it is a type parameter.
 */
module EmprestimoModel {

  import opened Wrappers

  /** The part of the frontend book model that the loan model reads. */
  datatype LivroView = LivroView(titulo: string)

  datatype Emprestimo<Leitor> = Emprestimo(
    id: Option<int>,
    leitor: Leitor,
    livros: seq<LivroView>,
    dataEmprestimo: Option<string>,
    dataDevolucaoPrevista: Option<string>,
    dataDevolucaoReal: Option<string>)

  const Newline: char := '\n'

  /** The constructor: stores what it is given and leaves `id` unset. */
  function NewEmprestimo<Leitor>(leitor: Leitor, livros: seq<LivroView>,
                                 dataEmprestimo: Option<string>,
                                 dataDevolucaoPrevista: Option<string>,
                                 dataDevolucaoReal: Option<string>): (e: Emprestimo<Leitor>)
    ensures e.id.None?
    ensures e.leitor == leitor && e.livros == livros
    ensures e.dataEmprestimo == dataEmprestimo
    ensures e.dataDevolucaoPrevista == dataDevolucaoPrevista
    ensures e.dataDevolucaoReal == dataDevolucaoReal
  {
    Emprestimo(None, leitor, livros, dataEmprestimo, dataDevolucaoPrevista, dataDevolucaoReal)
  }

  /** JavaScript's `Array.prototype.join`. */
  function Join(parts: seq<string>, sep: string): string
  {
    if |parts| == 0 then ""
    else if |parts| == 1 then parts[0]
    else parts[0] + sep + Join(parts[1..], sep)
  }

  /** JavaScript's `String.prototype.split` on one character: the empty string splits to one empty part. */
  function Split(s: string, c: char): (parts: seq<string>)
    ensures |parts| >= 1
  {
    if |s| == 0 then [""]
    else
      var rest := Split(s[1..], c);
      if s[0] == c then [""] + rest
      else [[s[0]] + rest[0]] + rest[1..]
  }

  /** The titles of a list of books, in order. */
  function Titulos(livros: seq<LivroView>): (ts: seq<string>)
    ensures |ts| == |livros|
    ensures forall i :: 0 <= i < |livros| ==> ts[i] == livros[i].titulo
  {
    seq(|livros|, i requires 0 <= i < |livros| => livros[i].titulo)
  }

  /** `getLivrosFormatados`: the loan's book titles joined by newlines. */
  function GetLivrosFormatados<Leitor>(e: Emprestimo<Leitor>): (s: string)
    ensures |e.livros| == 0 ==> s == ""
    ensures |e.livros| == 1 ==> s == e.livros[0].titulo
  {
    Join(Titulos(e.livros), [Newline])
  }

  predicate NoNewline(s: string)
  {
    Newline !in s
  }

  /** Splitting a newline-free string gives it back whole. */
  lemma {:induction false} SplitNewlineFree(s: string)
    requires NoNewline(s)
    ensures Split(s, Newline) == [s]
  {
    if |s| > 0 {
      assert s[0] != Newline;
      assert NoNewline(s[1..]);
      SplitNewlineFree(s[1..]);
      assert [s[0]] + s[1..] == s;
    }
  }

  /** A newline-free head followed by a newline splits off as the first part. */
  lemma {:induction false} SplitAfterHead(a: string, rest: string)
    requires NoNewline(a)
    ensures Split(a + [Newline] + rest, Newline) == [a] + Split(rest, Newline)
  {
    var s := a + [Newline] + rest;
    if |a| == 0 {
      assert s[1..] == rest;
    } else {
      assert a[0] != Newline;
      assert s[1..] == a[1..] + [Newline] + rest;
      assert NoNewline(a[1..]);
      SplitAfterHead(a[1..], rest);
      assert [a[0]] + a[1..] == a;
    }
  }

  /** Splitting the joined titles at newlines recovers them, in order, when none contains a newline. */
  lemma {:induction false} SplitJoinRoundTrip(ts: seq<string>)
    requires |ts| >= 1
    requires forall i :: 0 <= i < |ts| ==> NoNewline(ts[i])
    ensures Split(Join(ts, [Newline]), Newline) == ts
  {
    if |ts| == 1 {
      SplitNewlineFree(ts[0]);
    } else {
      assert ts[0] + [Newline] + Join(ts[1..], [Newline]) == Join(ts, [Newline]);
      SplitAfterHead(ts[0], Join(ts[1..], [Newline]));
      SplitJoinRoundTrip(ts[1..]);
    }
  }

  /** Joining n newline-free titles puts exactly n - 1 newlines in the result. */
  lemma {:induction false} JoinNewlineCount(ts: seq<string>)
    requires |ts| >= 1
    requires forall i :: 0 <= i < |ts| ==> NoNewline(ts[i])
    ensures multiset(Join(ts, [Newline]))[Newline] == |ts| - 1
  {
    if |ts| > 1 {
      JoinNewlineCount(ts[1..]);
      assert multiset(ts[0])[Newline] == 0;
      assert Join(ts, [Newline]) == ts[0] + [Newline] + Join(ts[1..], [Newline]);
    } else {
      assert multiset(ts[0])[Newline] == 0;
    }
  }

  /**
   With at least one book and newline-free titles, the formatted text has one
   newline fewer than there are books, and splitting it at newlines gives the
   titles back in list order.
   */
  lemma FormattedTitlesInOrder<Leitor>(e: Emprestimo<Leitor>)
    requires |e.livros| >= 1
    requires forall i :: 0 <= i < |e.livros| ==> NoNewline(e.livros[i].titulo)
    ensures multiset(GetLivrosFormatados(e))[Newline] == |e.livros| - 1
    ensures Split(GetLivrosFormatados(e), Newline) == Titulos(e.livros)
  {
    JoinNewlineCount(Titulos(e.livros));
    SplitJoinRoundTrip(Titulos(e.livros));
  }
}
