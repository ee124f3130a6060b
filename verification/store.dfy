/** The database both repositories share: the `categorias` and `produtos`
    tables, and the delete of a category with the ORM cascade declared on
    `Categoria.lista_de_produtos` (models.py). */
module Store {
  import opened Wrappers
  import opened Seqs
  import opened Repository
  import opened Models

  class Database {
    const categorias: Table<Uuid, Categoria>
    const produtos: Table<Uuid, Produto>

    /** Both primary-key constraints hold, and each table is keyed by `id`. */
    ghost predicate Valid()
      reads this, categorias, produtos
    {
      && categorias.Valid() && produtos.Valid()
      && categorias.keyOf == CategoriaKey && produtos.keyOf == ProdutoKey
    }

    constructor ()
      ensures Valid() && categorias.rows == [] && produtos.rows == []
    {
      categorias := new Table(CategoriaKey);
      produtos := new Table(ProdutoKey);
    }

    /** `delete` on the category repository: the category's row goes, and the
        cascade ("all, delete-orphan") deletes every product whose
        `categoria_id` is its id, in the same commit. A category that is not
        stored raises and nothing changes. */
    method DeleteCategoria(categoria: Categoria) returns (r: Outcome)
      requires Valid()
      modifies categorias, produtos
      ensures Valid()
      ensures r.Done? <==> Stored(old(categorias.rows), categoria.id)
      ensures r.Failed? ==> && r.error == InvalidRequestError
                            && categorias.rows == old(categorias.rows)
                            && produtos.rows == old(produtos.rows)
      ensures r.Done? ==> && categorias.rows == RemoveKey(old(categorias.rows), CategoriaKey, Simple(categoria.id))
                          && produtos.rows == Filter(old(produtos.rows), Not(InCategoria(categoria.id)))
      ensures !Stored(categorias.rows, categoria.id)
      ensures r.Done? ==> ProdutosDe(produtos.rows, categoria.id) == []
    {
      r := categorias.Delete(categoria);
      if r.Done? {
        FilterUnique(produtos.rows, ProdutoKey, Not(InCategoria(categoria.id)));
        CascadeRemovesExactlyItsProducts(produtos.rows, categoria.id);
        produtos.rows := Filter(produtos.rows, Not(InCategoria(categoria.id)));
      }
    }
  }
}
