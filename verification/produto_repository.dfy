/** repositories/ProdutoRepository.py: three named filters over `produtos`,
    each one `get` with a fixed predicate and the paging arguments passed
    through. A NULL `preco` or `estoque` satisfies neither BETWEEN nor `<=`. */
module ProdutoRepository {
  import opened Wrappers
  import opened Seqs
  import opened Paging
  import opened Repository
  import opened Models

  /** `Produto.preco.between(minimo, maximo)`: both bounds are inclusive, a
      NULL price never matches, and an empty range matches nothing. */
  function EntrePrecos(minimo: int, maximo: int): (f: Produto -> bool)
    ensures forall p: Produto {:trigger f(p)} :: f(p) <==> p.preco.Some? && minimo <= p.preco.value <= maximo
    ensures minimo <= maximo ==>
              forall p: Produto :: p.preco == Some(minimo) || p.preco == Some(maximo) ==> f(p)
    ensures forall p: Produto {:trigger f(p)} :: p.preco.None? ==> !f(p)
    ensures minimo > maximo ==> forall p: Produto :: !f(p)
  {
    (p: Produto) => p.preco.Some? && minimo <= p.preco.value <= maximo
  }

  /** `Produto.estoque <= 0`: zero and negative stock match, positive stock
      and a NULL stock do not. */
  function SemEstoque(): (f: Produto -> bool)
    ensures forall p: Produto {:trigger f(p)} :: p.estoque.Some? && p.estoque.value <= 0 ==> f(p)
    ensures forall p: Produto {:trigger f(p)} :: p.estoque.Some? && p.estoque.value > 0 ==> !f(p)
    ensures forall p: Produto {:trigger f(p)} :: p.estoque.None? ==> !f(p)
  {
    (p: Produto) => p.estoque.Some? && p.estoque.value <= 0
  }

  /** `Produto.ativo.is_(False)`: `ativo` is NOT NULL, so this is `not ativo`. */
  function Inativo(): (f: Produto -> bool)
    ensures forall p: Produto {:trigger f(p)} :: f(p) != p.ativo
  {
    (p: Produto) => !p.ativo
  }

  /** `produtos_por_preco`: the products priced from `minimo` to `maximo` cents. */
  function ProdutosPorPreco(
    produtos: seq<Produto>, minimo: int, maximo: int,
    page: Option<int>, pageSize: Option<int>): (r: Result<seq<Produto>>)
    ensures r.Err? <==> !PagingValid(page, pageSize)
    ensures r.Err? ==> r.error == ValueError
    ensures r.Ok? ==> forall p :: p in r.value ==> p in produtos && p.preco.Some? && minimo <= p.preco.value <= maximo
    ensures !Paged(page, pageSize) ==>
              r.Ok? && forall p :: p in produtos && p.preco.Some? && minimo <= p.preco.value <= maximo ==> p in r.value
    ensures minimo > maximo && r.Ok? ==> r.value == []
    ensures r.Ok? ==> IsSubseq(r.value, produtos)
  {
    var r := Get(produtos, Some(EntrePrecos(minimo, maximo)), page, pageSize);
    if r.Ok? then
      GetIsSubseq(produtos, Some(EntrePrecos(minimo, maximo)), page, pageSize);
      if minimo > maximo then FilterNone(produtos, EntrePrecos(minimo, maximo)); r else r
    else r
  }

  /** `produtos_sem_estoque`: the products whose stock is zero or negative. */
  function ProdutosSemEstoque(
    produtos: seq<Produto>, page: Option<int>, pageSize: Option<int>): (r: Result<seq<Produto>>)
    ensures r.Err? <==> !PagingValid(page, pageSize)
    ensures r.Err? ==> r.error == ValueError
    ensures r.Ok? ==> forall p :: p in r.value ==> p in produtos && p.estoque.Some? && p.estoque.value <= 0
    ensures !Paged(page, pageSize) ==>
              r.Ok? && forall p :: p in produtos && p.estoque.Some? && p.estoque.value <= 0 ==> p in r.value
    ensures r.Ok? ==> IsSubseq(r.value, produtos)
  {
    var r := Get(produtos, Some(SemEstoque()), page, pageSize);
    if r.Ok? then GetIsSubseq(produtos, Some(SemEstoque()), page, pageSize); r else r
  }

  /** `produtos_inativos`: the products with `ativo == False`. */
  function ProdutosInativos(
    produtos: seq<Produto>, page: Option<int>, pageSize: Option<int>): (r: Result<seq<Produto>>)
    ensures r.Err? <==> !PagingValid(page, pageSize)
    ensures r.Err? ==> r.error == ValueError
    ensures r.Ok? ==> forall p :: p in r.value ==> p in produtos && !p.ativo
    ensures !Paged(page, pageSize) ==> r.Ok? && forall p :: p in produtos && !p.ativo ==> p in r.value
    ensures r.Ok? ==> IsSubseq(r.value, produtos)
  {
    var r := Get(produtos, Some(Inativo()), page, pageSize);
    if r.Ok? then GetIsSubseq(produtos, Some(Inativo()), page, pageSize); r else r
  }

  /** Each of the three passes `page` and `page_size` on unchanged: its paged
      result is the generic paging window over its unpaged result. */
  lemma PagingPassedThrough(
    produtos: seq<Produto>, minimo: int, maximo: int, page: Option<int>, pageSize: Option<int>)
    ensures ProdutosPorPreco(produtos, minimo, maximo, page, pageSize)
         == Paginate(ProdutosPorPreco(produtos, minimo, maximo, None, None).value, page, pageSize)
    ensures ProdutosSemEstoque(produtos, page, pageSize)
         == Paginate(ProdutosSemEstoque(produtos, None, None).value, page, pageSize)
    ensures ProdutosInativos(produtos, page, pageSize)
         == Paginate(ProdutosInativos(produtos, None, None).value, page, pageSize)
  {
  }

  /** Products priced 10.00, 25.00 and 50.00: the range 20.00 to 40.00 holds only the second. */
  lemma PriceRangeExample(a: Produto, b: Produto, c: Produto)
    requires a.preco == Some(1000) && b.preco == Some(2500) && c.preco == Some(5000)
    ensures ProdutosPorPreco([a, b, c], 2000, 4000, None, None) == Ok([b])
  {
    assert [] + [b] + [] == [b];
    var p := EntrePrecos(2000, 4000);
    assert !p(a) && p(b) && !p(c);
    FilterThree(a, b, c, p);
  }

  /** Stock 10, 0 and -5: the last two are out of stock. */
  lemma OutOfStockExample(a: Produto, b: Produto, c: Produto)
    requires a.estoque == Some(10) && b.estoque == Some(0) && c.estoque == Some(-5)
    ensures ProdutosSemEstoque([a, b, c], None, None) == Ok([b, c])
  {
    assert [] + [b] + [c] == [b, c];
    var p := SemEstoque();
    assert !p(a) && p(b) && p(c);
    FilterThree(a, b, c, p);
  }

  /** One active and one inactive product: only the inactive one is returned. */
  lemma InactiveExample(a: Produto, b: Produto)
    requires a.ativo && !b.ativo
    ensures ProdutosInativos([a, b], None, None) == Ok([b])
  {
    var p := Inativo();
    assert [a, b][1..] == [b] && [b][1..] == [];
    assert !p(a) && p(b);
    assert Filter([b], p) == [b];
    assert Filter([a, b], p) == [b];
  }
}
