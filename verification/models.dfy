/** The two entities of models.py as records: `Categoria` (table `categorias`)
    and `Produto` (table `produtos`), linked one-to-many by the foreign key
    `categoria_id`. Prices are integer cents for the DECIMAL(10,2) column. */
module Models {
  import opened Wrappers
  import opened Seqs
  import opened Repository

  /** A UUID, the type of both primary keys and of the foreign key. */
  type Uuid = x: int | 0 <= x < 0x1_0000_0000_0000_0000_0000_0000_0000_0000

  /** A row of `categorias`. `nome` is NOT NULL. */
  datatype Categoria = Categoria(id: Uuid, nome: string)

  /** A row of `produtos`. `preco` (in cents), `estoque` and `categoria_id` are
      nullable columns; `nome` and `ativo` are NOT NULL. */
  datatype Produto = Produto(
    id: Uuid,
    nome: string,
    preco: Option<int>,
    estoque: Option<int>,
    ativo: bool,
    categoriaId: Option<Uuid>)

  /** `id` is the primary key of both tables: a row's key is the identity
      `get_by_id(id)` looks up. */
  function CategoriaKey(c: Categoria): (k: Identity<Uuid>)
    ensures k == IdentityOf([c.id])
  {
    Simple(c.id)
  }

  function ProdutoKey(p: Produto): (k: Identity<Uuid>)
    ensures k == IdentityOf([p.id])
  {
    Simple(p.id)
  }

  /** `Categoria(nome=..., id=...)` once inserted: an id that was not given is
      the freshly generated `freshId`. */
  function NewCategoria(nome: string, id: Option<Uuid>, freshId: Uuid): (c: Categoria)
    ensures c.nome == nome
    ensures id.Some? ==> c.id == id.value
    ensures id.None? ==> c.id == freshId
  {
    Categoria(id.GetOr(freshId), nome)
  }

  /** `Produto(nome=..., ...)` once inserted: the column defaults fill what was
      not given, `preco = 0.00`, `estoque = 0`, `ativo = True`, and a fresh id;
      `categoria_id` stays NULL unless given. */
  function NewProduto(
    nome: string,
    preco: Option<int>,
    estoque: Option<int>,
    ativo: Option<bool>,
    categoriaId: Option<Uuid>,
    id: Option<Uuid>,
    freshId: Uuid): (p: Produto)
    ensures p.nome == nome && p.categoriaId == categoriaId
    ensures p.preco == (if preco.Some? then preco else Some(0))
    ensures p.estoque == (if estoque.Some? then estoque else Some(0))
    ensures p.ativo == (ativo.None? || ativo.value)
    ensures p.id == (if id.Some? then id.value else freshId)
  {
    Produto(id.GetOr(freshId), nome, Some(preco.GetOr(0)), Some(estoque.GetOr(0)), ativo.GetOr(true), categoriaId)
  }

  /** The product points at the category with id `id`. */
  function InCategoria(id: Uuid): Produto -> bool {
    (p: Produto) => p.categoriaId == Some(id)
  }

  /** `Categoria.lista_de_produtos`: the products whose `categoria_id` is the
      category's id, in table order. */
  function ProdutosDe(produtos: seq<Produto>, id: Uuid): (r: seq<Produto>)
    ensures forall p :: p in r ==> p in produtos && p.categoriaId == Some(id)
    ensures forall p :: p in produtos && p.categoriaId == Some(id) ==> p in r
  {
    Filter(produtos, InCategoria(id))
  }

  /** `Produto.categoria`: the category the foreign key names, if any row has that id. */
  function CategoriaDe(categorias: seq<Categoria>, p: Produto): (r: Option<Categoria>)
    ensures r.Some? ==> r.value in categorias && p.categoriaId == Some(r.value.id)
    ensures p.categoriaId.None? ==> r.None?
  {
    match p.categoriaId
    case None => None
    case Some(id) => FindByKey(categorias, CategoriaKey, Simple(id))
  }

  /** A category with this id is stored. */
  predicate Stored(categorias: seq<Categoria>, id: Uuid) {
    FindByKey(categorias, CategoriaKey, Simple(id)).Some?
  }

  /** The two ends of the relationship agree: a stored product is in a stored
      category's `lista_de_produtos` exactly when its `categoria` is that category. */
  lemma RelationshipEndsAgree(categorias: seq<Categoria>, produtos: seq<Produto>, c: Categoria, p: Produto)
    requires UniqueKeys(categorias, CategoriaKey) && c in categorias
    ensures p in ProdutosDe(produtos, c.id) <==> p in produtos && CategoriaDe(categorias, p) == Some(c)
  {
    FindStored(categorias, CategoriaKey, c);
    assert CategoriaKey(c) == Simple(c.id);
  }

  /** A product with a NULL `categoria_id` belongs to no category. */
  lemma NoCategoriaNoList(produtos: seq<Produto>, p: Produto, id: Uuid)
    requires p.categoriaId.None?
    ensures p !in ProdutosDe(produtos, id)
  {
  }

  /** A generated id that no stored category uses gives a row the primary-key
      constraint accepts. */
  lemma FreshCategoriaIsInsertable(categorias: seq<Categoria>, nome: string, freshId: Uuid)
    requires forall c :: c in categorias ==> c.id != freshId
    ensures FindByKey(categorias, CategoriaKey, CategoriaKey(NewCategoria(nome, None, freshId))).None?
  {
  }

  /** The same for products. */
  lemma FreshProdutoIsInsertable(
    produtos: seq<Produto>, nome: string, preco: Option<int>, estoque: Option<int>,
    ativo: Option<bool>, categoriaId: Option<Uuid>, freshId: Uuid)
    requires forall p :: p in produtos ==> p.id != freshId
    ensures FindByKey(produtos, ProdutoKey, ProdutoKey(NewProduto(nome, preco, estoque, ativo, categoriaId, None, freshId))).None?
  {
  }

  /** After the cascade removes a category's products, none is left pointing
      at it, every other product stays, and exactly as many rows are gone as
      the category had products. */
  lemma CascadeRemovesExactlyItsProducts(produtos: seq<Produto>, id: Uuid)
    ensures var kept := Filter(produtos, Not(InCategoria(id)));
            && ProdutosDe(kept, id) == []
            && (forall p :: p in kept ==> p in produtos && p.categoriaId != Some(id))
            && (forall p :: p in produtos && p.categoriaId != Some(id) ==> p in kept)
            && |kept| == |produtos| - |ProdutosDe(produtos, id)|
  {
    var kept := Filter(produtos, Not(InCategoria(id)));
    FilterSplit(produtos, InCategoria(id));
  }
}
