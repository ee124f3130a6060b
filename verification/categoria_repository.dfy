/** repositories/CategoriaRepository.py: the products of a category, reached
    from a `Categoria` object or from its UUID and paged in memory, and the
    categories that no product points at. */
module CategoriaRepository {
  import opened Wrappers
  import opened Seqs
  import opened Paging
  import opened Repository
  import opened Models

  /** The argument of `get_produtos`, by its runtime type: a `Categoria`
      object, a `uuid.UUID`, or a value of any other type. */
  datatype CategoriaInfo = AsCategoria(categoria: Categoria) | AsUuid(id: Uuid) | Other

  /** The paging `get_produtos` applies to the list it already holds: the same
      check as `_build_statement`, then the Python slice
      `lista[start:start + page_size]`. It cuts the same window as the
      statement's OFFSET and LIMIT. */
  function SliceLista<T>(lista: seq<T>, page: Option<int>, pageSize: Option<int>): (r: Result<seq<T>>)
    ensures r == Paginate(lista, page, pageSize)
  {
    if page.Some? && pageSize.Some? then
      if page.value < 1 || pageSize.value < 1 then Err(ValueError)
      else
        var start := Offset(page.value, pageSize.value);
        var end := start + pageSize.value;
        Ok(PySlice(lista, start, end))
    else Ok(lista)
  }

  /** `get_produtos`. A `Categoria` object (one whose id is stored) and a UUID
      of a stored category both give that category's products; an unknown
      UUID gives `[]` before the paging arguments are looked at; any other
      argument raises `TypeError`. */
  function GetProdutos(
    categorias: seq<Categoria>, produtos: seq<Produto>, info: CategoriaInfo,
    page: Option<int>, pageSize: Option<int>): (r: Result<seq<Produto>>)
    requires info.AsCategoria? ==> Stored(categorias, info.categoria.id)
    ensures info.Other? ==> r == Err(TypeError)
    ensures info.AsUuid? && !Stored(categorias, info.id) ==> r == Ok([])
    ensures info.AsCategoria? || (info.AsUuid? && Stored(categorias, info.id)) ==>
              && (r.Err? <==> !PagingValid(page, pageSize))
              && (r.Err? ==> r.error == ValueError)
    ensures r.Ok? ==> forall p :: p in r.value ==>
              && p in produtos
              && (info.AsCategoria? ==> p.categoriaId == Some(info.categoria.id))
              && (info.AsUuid? ==> p.categoriaId == Some(info.id))
  {
    match info
    case AsCategoria(c) => SliceLista(ProdutosDe(produtos, c.id), page, pageSize)
    case AsUuid(id) =>
      if !Stored(categorias, id) then Ok([])
      else SliceLista(ProdutosDe(produtos, id), page, pageSize)
    case Other => Err(TypeError)
  }

  /** The id of the category `get_produtos` reads, when it reads one. */
  function CategoriaId(info: CategoriaInfo): Uuid
    requires !info.Other?
  {
    match info
    case AsCategoria(c) => c.id
    case AsUuid(id) => id
  }

  /** Passing the object or its id gives the same products, paged the same way. */
  lemma ObjectAndUuidAgree(
    categorias: seq<Categoria>, produtos: seq<Produto>, c: Categoria,
    page: Option<int>, pageSize: Option<int>)
    requires Stored(categorias, c.id)
    ensures GetProdutos(categorias, produtos, AsCategoria(c), page, pageSize)
         == GetProdutos(categorias, produtos, AsUuid(c.id), page, pageSize)
  {
  }

  /** For a category that is found, the result is the generic paging window
      over the category's products: everything when paging is off, the page
      at `(page - 1) * page_size` otherwise. */
  lemma FoundCategoriaIsPaged(
    categorias: seq<Categoria>, produtos: seq<Produto>, info: CategoriaInfo,
    page: Option<int>, pageSize: Option<int>)
    requires info.AsCategoria? || info.AsUuid?
    requires Stored(categorias, CategoriaId(info))
    ensures GetProdutos(categorias, produtos, info, page, pageSize)
         == Paginate(ProdutosDe(produtos, CategoriaId(info)), page, pageSize)
  {
  }

  /** Unpaged, the products of a found category are exactly those whose
      `categoria_id` is its id, in table order. */
  lemma FoundCategoriaHasAllItsProdutos(
    categorias: seq<Categoria>, produtos: seq<Produto>, info: CategoriaInfo)
    requires info.AsCategoria? || info.AsUuid?
    requires Stored(categorias, CategoriaId(info))
    ensures var r := GetProdutos(categorias, produtos, info, None, None);
            && r.Ok?
            && (forall p :: p in r.value <==> p in produtos && p.categoriaId == Some(CategoriaId(info)))
            && IsSubseq(r.value, produtos)
  {
    FilterIsSubseq(produtos, InCategoria(CategoriaId(info)));
  }

  /** An unknown UUID gives `[]` even with paging arguments that would raise. */
  lemma UnknownUuidSkipsPagingCheck(
    categorias: seq<Categoria>, produtos: seq<Produto>, id: Uuid, page: int, pageSize: int)
    requires !Stored(categorias, id) && (page < 1 || pageSize < 1)
    ensures GetProdutos(categorias, produtos, AsUuid(id), Some(page), Some(pageSize)) == Ok([])
    ensures Paginate(ProdutosDe(produtos, id), Some(page), Some(pageSize)) == Err(ValueError)
  {
  }

  /** With ten products and `page_size = 5`, page 1 starts at the first
      product and page 2 at the sixth, five products each. */
  lemma TenProdutosInPagesOfFive(categorias: seq<Categoria>, produtos: seq<Produto>, c: Categoria)
    requires Stored(categorias, c.id) && |ProdutosDe(produtos, c.id)| == 10
    ensures var lista := ProdutosDe(produtos, c.id);
            var p1 := GetProdutos(categorias, produtos, AsCategoria(c), Some(1), Some(5));
            var p2 := GetProdutos(categorias, produtos, AsCategoria(c), Some(2), Some(5));
            && p1.Ok? && |p1.value| == 5 && p1.value[0] == lista[0]
            && p2.Ok? && |p2.value| == 5 && p2.value[0] == lista[5]
            && p1.value + p2.value == lista
  {
    var lista := ProdutosDe(produtos, c.id);
    PagesUpToPrefix(lista, 5, 2);
    assert PagesUpTo(lista, 5, 1) == [] + Paginate(lista, Some(1), Some(5)).value;
  }

  /** The WHERE clause `~Categoria.lista_de_produtos.any()`: it holds of a
      category exactly when its `lista_de_produtos` is empty. */
  function SemProdutos(produtos: seq<Produto>): (f: Categoria -> bool)
    ensures forall c: Categoria :: f(c) <==> ProdutosDe(produtos, c.id) == []
  {
    var f := (c: Categoria) => !exists p <- produtos :: p.categoriaId == Some(c.id);
    assert forall c: Categoria :: f(c) <==> ProdutosDe(produtos, c.id) == [] by {
      forall c: Categoria
        ensures f(c) <==> ProdutosDe(produtos, c.id) == []
      {
        var lista := ProdutosDe(produtos, c.id);
        if lista != [] {
          assert lista[0] in lista;
        }
      }
    }
    f
  }

  /** `get_categorias_sem_produtos`: `get` with the anti-join predicate and the
      paging arguments passed through. */
  function GetCategoriasSemProdutos(
    categorias: seq<Categoria>, produtos: seq<Produto>,
    page: Option<int>, pageSize: Option<int>): (r: Result<seq<Categoria>>)
    ensures r.Err? <==> !PagingValid(page, pageSize)
    ensures r.Err? ==> r.error == ValueError
    ensures r.Ok? ==> forall c :: c in r.value ==> c in categorias && ProdutosDe(produtos, c.id) == []
    ensures !Paged(page, pageSize) ==>
              r.Ok? && forall c :: c in categorias && ProdutosDe(produtos, c.id) == [] ==> c in r.value
    ensures r.Ok? ==> IsSubseq(r.value, categorias)
  {
    var pred := SemProdutos(produtos);
    var r := Get(categorias, Some(pred), page, pageSize);
    if r.Ok? then GetIsSubseq(categorias, Some(pred), page, pageSize); r else r
  }

  /** `get_categorias_sem_produtos` passes `page` and `page_size` on to `get`
      unchanged: a paged call is the paging window over the unpaged result. */
  lemma GetCategoriasSemProdutosIsPaged(
    categorias: seq<Categoria>, produtos: seq<Produto>, page: Option<int>, pageSize: Option<int>)
    ensures GetCategoriasSemProdutos(categorias, produtos, page, pageSize)
         == Paginate(GetCategoriasSemProdutos(categorias, produtos, None, None).value, page, pageSize)
  {
  }

  /** One category with a product and one without: only the one without is returned. */
  lemma OnlyTheEmptyCategoria(comida: Categoria, bebida: Categoria, pizza: Produto)
    requires comida.id != bebida.id && pizza.categoriaId == Some(comida.id)
    ensures GetCategoriasSemProdutos([comida, bebida], [pizza], None, None) == Ok([bebida])
  {
    var pred := SemProdutos([pizza]);
    assert !pred(comida) && pred(bebida);
    assert [comida, bebida][1..] == [bebida];
    assert Filter([bebida], pred) == [bebida] + Filter([], pred);
    assert Filter([comida, bebida], pred) == [bebida];
  }
}
