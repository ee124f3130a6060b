# Estoque repository layer in Dafny

A model of the data-access core of a small stock-keeping application
(categories and products). The application reaches its database through a
generic repository (`ISQLAlchemyRepository`): queries `get_all`, `get`,
`get_first`, `get_by_id`, `count`, and writes `add`, `bulk_add`, `update`,
`delete`. Optional paging is built by `_build_statement`. Two concrete
repositories sit on top:

- `CategoriaRepository` adds `get_produtos` (the products of one category,
  given as an object or as a UUID, paged by slicing a Python list) and
  `get_categorias_sem_produtos` (categories no product points at).
- `ProdutoRepository` adds three filters: a price range, out of stock, and
  inactive.

The entities are `Categoria` and `Produto` from `models.py`. They are linked
one-to-many by `categoria_id`, and deleting a category cascades to its
products.

The database is replaced by an in-memory store. Each table is a sequence of
records in table order, and its primary key is given by a key function. The
pieces are:

- **wrappers.dfy**: `Option`; `Result` for a value or the exception a call
  raises (`ValueError`, `TypeError`, `IntegrityError`,
  `InvalidRequestError`); `Outcome` for a write.
- **seqs.dfy**: filtering, counting, Python slicing, and the subsequence
  order that every query result keeps.
- **paging.dfy**: the paging rule of `_build_statement`.
  - Paging applies only when both `page` and `page_size` are given.
  - A value below 1 raises `ValueError`.
  - Otherwise the result is the window at `(page - 1) * page_size`, at most
    `page_size` long.
  - Proved: pages `1 .. ceil(N / k)` concatenate back to the whole list.
- **repository.dfy**: the generic repository.
  - The queries are pure functions of a table's rows.
  - The writes are methods of `class Table`, whose invariant is the
    primary-key constraint. Each write is one atomic commit.
- **models.dfy**: the records, their column defaults, both ends of the
  relationship, and the cascade rule.
- **store.dfy**: `class Database`, holding both tables. It deletes a category
  together with its products.
- **categoria_repository.dfy** and **produto_repository.dfy**: the two
  concrete repositories, as pure functions over the tables.

Some modelling conventions:

- Query results come back in table order. The SQL has no `ORDER BY`, so the
  model assumes the database returns insertion order. The paging test of
  `get_produtos` relies on that too.
- A NULL column is `None`. It satisfies neither `BETWEEN` nor `<=`.
- Prices (`DECIMAL(10,2)`) and the price bounds are integer cents.
- `uuid.uuid4()` becomes a `freshId` parameter.

Two behaviours of the code worth stating outright:

- **Deleting an entity with no stored row raises.** `delete` runs
  `session.delete(session.merge(entity))`. For an entity with no row,
  `merge` returns a new pending object, and deleting a pending object raises
  `InvalidRequestError`. `Table.Delete` therefore returns
  `Failed(InvalidRequestError)` and leaves the table unchanged.
- **The paging error message says more than the check.** The message of the
  `ValueError` says the values must be "greater than 1", but the check raises
  only for values below 1 (interfaces/ISQLAlchemyRepository.py:233-234), so
  `page = 1` and `page_size = 1` are accepted. The model follows the check.

## Model

| member | source | states |
|---|---|---|
| Paging.Offset | interfaces/ISQLAlchemyRepository.py:235 | the offset of a valid page is non-negative and falls on a page boundary: exactly `page - 1` whole pages of `page_size` rows come before it |
| Paging.OffsetLimit | interfaces/ISQLAlchemyRepository.py:236 | `OFFSET o LIMIT l`: nothing when `o` is at or past the end, otherwise `min(l, N - o)` rows, row `k` being input row `o + k` |
| Paging.Paginate | interfaces/ISQLAlchemyRepository.py:232-236 | unpaged gives every row. It fails, with `ValueError`, exactly when both values are given and one is below 1. Otherwise the result has at most `page_size` rows, is empty when the offset is at or past the end, has `min(page_size, N - offset)` rows otherwise, and row `k` is input row `offset + k` |
| Paging.PageIsSubseq | interfaces/ISQLAlchemyRepository.py:235-236 | a page keeps the rows' order and adds nothing |
| Paging.PageIsSlice | interfaces/ISQLAlchemyRepository.py:235-236 | page n of size k is the slice from `min((n-1)*k, N)` to `min(n*k, N)`, the two ends clamped to the list |
| Paging.PagesUpToPrefix | interfaces/ISQLAlchemyRepository.py:235-236 | pages 1..n of size k, concatenated, are the first `min(n*k, N)` rows |
| Paging.PagesCover | interfaces/ISQLAlchemyRepository.py:235-236 | pages `1 .. ceil(N/k)` concatenated are exactly the unpaged rows |
| Paging.PageCountCovers | interfaces/ISQLAlchemyRepository.py:235-236 | `ceil(N/k)` pages of size k reach the end of N rows, and one page fewer does not (`ceil(N/k) * k` lies in `[N, N + k)`) |
| Paging.PageAfterLastIsEmpty | interfaces/ISQLAlchemyRepository.py:235-236 | every page after page `ceil(N/k)` is empty, not an error |
| Seqs.Filter | interfaces/ISQLAlchemyRepository.py:95-96 | the WHERE clause keeps exactly the rows satisfying the predicate, and never more rows than it is given |
| Seqs.FilterSplit | models.py:54-56 | every row lands on exactly one side of a predicate, so kept plus dropped is the whole table |
| Seqs.CountWhere | interfaces/ISQLAlchemyRepository.py:204-207 | counting matches one by one never exceeds the table size |
| Seqs.CountIsFilterLength | interfaces/ISQLAlchemyRepository.py:204-207 | counting one by one gives the length of the filtered rows |
| Seqs.PySlice | repositories/CategoriaRepository.py:78 | Python's `xs[start:end]`: the length is clamped to the list and empty when `end <= start`, and element k is `xs[start + k]` |
| Repository.IdentityOf | interfaces/ISQLAlchemyRepository.py:144 | one key part is a simple key holding that part; several parts form a composite key holding all of them |
| Repository.Matching | interfaces/ISQLAlchemyRepository.py:94-96 | `select(model).where(predicate)` holds exactly the rows that pass the optional predicate |
| Repository.GetAll | interfaces/ISQLAlchemyRepository.py:69-74 | fails with `ValueError` exactly on invalid paging; every returned row is stored; unpaged it is the whole table |
| Repository.Get | interfaces/ISQLAlchemyRepository.py:94-101 | fails with `ValueError` exactly on invalid paging; every returned row is stored and passes the predicate; unpaged, every stored row that passes is returned |
| Repository.GetFirst | interfaces/ISQLAlchemyRepository.py:117-124 | `None` exactly when no row passes; otherwise the row at the first passing index, with no passing row before it |
| Repository.MatchingHead | interfaces/ISQLAlchemyRepository.py:117-124 | a non-empty filtered list starts with the first passing row of the table |
| Repository.QueriesArePaged | interfaces/ISQLAlchemyRepository.py:69-101 | `get_all` and `get` with `page` and `page_size` return exactly the paging window (or the `ValueError`) of `_build_statement` over their unpaged result |
| Repository.GetWithoutPredicateIsGetAll | interfaces/ISQLAlchemyRepository.py:69-101 | `get()` with no predicate is `get_all()` for every paging argument |
| Repository.GetIsSubseq | interfaces/ISQLAlchemyRepository.py:94-101 | a successful `get` keeps table order and adds nothing |
| Repository.GetFirstIsHeadOfGet | interfaces/ISQLAlchemyRepository.py:117-124 | `get_first(pred)` is the head of the unpaged `get(pred)`, or `None` when that list is empty |
| Repository.FindByKey | interfaces/ISQLAlchemyRepository.py:145 | a found row is stored and has that key; nothing is found exactly when no row has the key |
| Repository.GetById | interfaces/ISQLAlchemyRepository.py:140-146 | no key parts gives `None`; otherwise a found row has the identity built from the parts, and `None` means no row has it |
| Repository.Count | interfaces/ISQLAlchemyRepository.py:203-208 | the count never exceeds the table size, and with no predicate it is the table size |
| Repository.CountIsLengthOfGet | interfaces/ISQLAlchemyRepository.py:203-208 | `count(pred)` is the length of the unpaged `get(pred)` |
| Repository.GetPagesCover | interfaces/ISQLAlchemyRepository.py:94-101 | for any page size k, the calls `get(pred, page=i, page_size=k)` for `i` from 1 to `ceil(N/k)` are the pages of the unpaged `get(pred)`, and joined in order they are that unpaged result |
| Repository.UniqueKeysDistinct | models.py:51-75 | the primary-key constraint holds exactly when no two rows share a key |
| Repository.FindStored | interfaces/ISQLAlchemyRepository.py:145 | under the primary-key constraint, looking up a stored row's key finds that very row |
| Repository.FindInConcat | interfaces/ISQLAlchemyRepository.py:155-168 | a lookup in appended rows finds the old row if there is one, otherwise the new one |
| Repository.Upsert | interfaces/ISQLAlchemyRepository.py:177-179 | after `merge`, the entity's key finds the entity and every other key finds what it found before; the table grows by one exactly when the key was new |
| Repository.RemoveKey | interfaces/ISQLAlchemyRepository.py:188-190 | after removal the key finds nothing and every other key finds what it found before |
| Repository.AppendUnique | interfaces/ISQLAlchemyRepository.py:166-168 | inserting entities whose keys are new and distinct keeps the primary-key constraint |
| Repository.UpsertUnique | interfaces/ISQLAlchemyRepository.py:177-179 | `merge` keeps the primary-key constraint |
| Repository.RemoveKeyUnique | interfaces/ISQLAlchemyRepository.py:188-190 | removal keeps the constraint and shrinks the table by one exactly when the key was stored |
| Repository.FilterUnique | models.py:54-56 | dropping rows (as the cascade does) keeps the constraint |
| Repository.AddedIsFound | interfaces/ISQLAlchemyRepository.py:155-157 | after adding an entity with a new key, `get_by_id` finds it and `count()` grows by one |
| Repository.Table.constructor | interfaces/ISQLAlchemyRepository.py:155-190 | a new table is empty and satisfies the primary-key constraint |
| Repository.Table.Add | interfaces/ISQLAlchemyRepository.py:155-157 | succeeds exactly when the key is new, and then appends the entity, which its key then finds. A duplicate key fails with `IntegrityError` and changes nothing. The constraint is kept |
| Repository.Table.BulkAdd | interfaces/ISQLAlchemyRepository.py:166-168 | one commit: succeeds exactly when every key is new and distinct, and then appends all entities in order; otherwise fails with `IntegrityError` and changes nothing |
| Repository.Table.Update | interfaces/ISQLAlchemyRepository.py:177-179 | the table becomes the upsert: the entity's key finds the entity, and other keys are unaffected |
| Repository.Table.Delete | interfaces/ISQLAlchemyRepository.py:188-190 | succeeds exactly when the key is stored, removing that row and shrinking the table by one; an absent key fails with `InvalidRequestError` and changes nothing; either way the key then finds nothing and other keys are unaffected |
| Models.CategoriaKey | models.py:51 | a category's primary key is the identity `get_by_id(id)` builds from its `id` |
| Models.ProdutoKey | models.py:75 | a product's primary key is the identity `get_by_id(id)` builds from its `id` |
| Models.NewCategoria | models.py:51-52 | the name is the one given; the id is the given one, or the fresh one when none is given |
| Models.NewProduto | models.py:75-80 | defaults `preco = 0.00`, `estoque = 0`, `ativo = True` and a fresh id apply to what is not given; `nome` and `categoria_id` are as given |
| Models.ProdutosDe | models.py:54-56 | `lista_de_produtos` holds exactly the stored products whose `categoria_id` is the category's id |
| Models.CategoriaDe | models.py:80-83 | `Produto.categoria` is a stored category named by the foreign key; a NULL foreign key has none |
| Models.RelationshipEndsAgree | models.py:54-83 | for a stored category, a product is in its `lista_de_produtos` exactly when the product's `categoria` is that category |
| Models.NoCategoriaNoList | models.py:80 | a product with a NULL `categoria_id` belongs to no category's list |
| Models.FreshCategoriaIsInsertable | models.py:51 | a generated id no stored category uses is a key the table does not hold yet |
| Models.FreshProdutoIsInsertable | models.py:75 | the same for products |
| Models.CascadeRemovesExactlyItsProducts | models.py:54-56 | after the cascade no product points at the category, every other product stays, and exactly the category's products are gone |
| Store.Database.constructor | models.py:49-75 | both tables start empty, keyed by `id` |
| Store.Database.DeleteCategoria | interfaces/ISQLAlchemyRepository.py:188-190 | succeeds exactly when the category is stored. It then removes the category's row and, in the same commit, every product of the category, keeping all other products in order. An absent category raises and changes neither table. Afterwards the category is not stored |
| CategoriaRepository.SliceLista | repositories/CategoriaRepository.py:73-80 | the Python-slice paging of `get_produtos` equals the generic OFFSET/LIMIT paging of `_build_statement`, error included |
| CategoriaRepository.GetProdutos | repositories/CategoriaRepository.py:57-80 | any other argument type raises `TypeError`. An unknown UUID gives `[]`. For a found category it fails with `ValueError` exactly on invalid paging. Every returned product is stored and has the category's id |
| CategoriaRepository.ObjectAndUuidAgree | repositories/CategoriaRepository.py:57-68 | for a stored category, passing the object or its UUID gives the same result for every paging argument |
| CategoriaRepository.FoundCategoriaIsPaged | repositories/CategoriaRepository.py:73-80 | for a found category the result is the generic paging window over its `lista_de_produtos` |
| CategoriaRepository.FoundCategoriaHasAllItsProdutos | repositories/CategoriaRepository.py:57-68 | unpaged, the result is exactly the products pointing at the category, in table order |
| CategoriaRepository.UnknownUuidSkipsPagingCheck | repositories/CategoriaRepository.py:63-75 | an unknown UUID gives `[]` even with paging arguments that would otherwise raise `ValueError` |
| CategoriaRepository.TenProdutosInPagesOfFive | tests/test_categoria_repository.py:136-152 | with ten products and page size 5, pages 1 and 2 each hold five, start at the first and sixth product, and together are the whole list |
| CategoriaRepository.SemProdutos | repositories/CategoriaRepository.py:93 | the anti-join predicate `~lista_de_produtos.any()` holds of a category exactly when its `lista_de_produtos` is empty |
| CategoriaRepository.GetCategoriasSemProdutos | repositories/CategoriaRepository.py:93-95 | fails with `ValueError` exactly on invalid paging. The result contains only stored categories with no products, in table order. Unpaged, it contains every such category |
| CategoriaRepository.GetCategoriasSemProdutosIsPaged | repositories/CategoriaRepository.py:93-95 | `page` and `page_size` reach `get` unchanged: a paged call is the paging window over the unpaged result, or its `ValueError` |
| CategoriaRepository.OnlyTheEmptyCategoria | tests/test_categoria_repository.py:107-117 | with "Comida" holding "Pizza" and "Bebida" empty, only "Bebida" is returned |
| ProdutoRepository.EntrePrecos | repositories/ProdutoRepository.py:47 | `preco BETWEEN min AND max`: matches exactly the products with a non-NULL price in `[min, max]`, both bounds included; a NULL price never matches; `min > max` matches nothing |
| ProdutoRepository.SemEstoque | repositories/ProdutoRepository.py:62 | `estoque <= 0`: zero and negative stock match; positive stock and NULL stock do not |
| ProdutoRepository.Inativo | repositories/ProdutoRepository.py:77 | `ativo IS false`: matches exactly the products whose `ativo` is false (the column is NOT NULL) |
| ProdutoRepository.ProdutosPorPreco | repositories/ProdutoRepository.py:47-49 | fails with `ValueError` exactly on invalid paging. Every returned product has a price in `[min, max]`, bounds included. Unpaged, every such product is returned. `min > max` gives `[]`. The result keeps table order |
| ProdutoRepository.ProdutosSemEstoque | repositories/ProdutoRepository.py:62-64 | fails with `ValueError` exactly on invalid paging; every returned product has a non-NULL stock `<= 0`, negative stock included; unpaged every such product is returned; table order is kept |
| ProdutoRepository.ProdutosInativos | repositories/ProdutoRepository.py:77-79 | fails with `ValueError` exactly on invalid paging; every returned product is inactive; unpaged every inactive product is returned; table order is kept |
| ProdutoRepository.PagingPassedThrough | repositories/ProdutoRepository.py:47-79 | each of the three results is the generic paging window over its own unpaged result |
| ProdutoRepository.PriceRangeExample | tests/test_produto_repository.py:97-107 | prices 10.00, 25.00 and 50.00 with range 20.00–40.00 give only the second product |
| ProdutoRepository.OutOfStockExample | tests/test_produto_repository.py:110-120 | stock 10, 0 and -5 gives the last two products |
| ProdutoRepository.InactiveExample | tests/test_produto_repository.py:123-132 | one active and one inactive product gives only the inactive one |

## Left out

- The SQLAlchemy engine, sessions and the commit/rollback lifecycle. Each
  repository write is one atomic change to the in-memory table, and a failed
  commit leaves the table as it was.
- `load_options` and `joinedload`: dropped from every query. For
  `get_by_id` they only change how rows are loaded. For `get_all`, `get` and
  `get_first`, a joined eager load of a collection makes SQLAlchemy 2.0 raise
  `InvalidRequestError`, because the result is not made unique with
  `.unique()`; the model has no such error path.
- The timestamp columns `dta_cadastro` and `dta_atualizacao`: they come from
  the database or system clock.
- The randomness of `uuid.uuid4`: a generated id is the parameter `freshId`.
  The fresh-id lemmas assume an id no stored row uses.
- Floating-point prices at call sites: prices and range bounds are integer
  cents.
- The precision of `DECIMAL(10,2)` and the length of `String(256)` are not
  enforced.
- The foreign-key constraint is not enforced on insert. A product may name a
  category that is not stored; `CategoriaDe` then finds none.
- The `LIKE` predicate of the counting tests: predicates are arbitrary
  functions.
- CategoriaRepository.GetProdutos: the object branch is modelled only for a
  category whose id is stored. For a detached object with no row,
  `session.merge` would create a pending category whose effect is not part of
  this model. The branch also reads the table's current products, which holds
  when the passed object's `lista_de_produtos` was never loaded. If it was
  loaded, `merge` copies that loaded list onto the managed object, and a
  stale list would be returned instead. `ObjectAndUuidAgree` rests on the
  same reading.
- Repository.FindByKey: a key whose shape does not match the table's key (a
  composite key on a single-column table) finds nothing here, where SQLAlchemy
  raises.
- Repository.GetById: for the same reason, `get_by_id` with the wrong number
  of key parts returns `None` here, where `session.get` raises.
- Repository.Table.Add: every entity is treated as a new, transient row, and
  a stored key fails with `IntegrityError`. `session.add` on a detached object
  (one loaded or saved earlier, whose key is stored) re-attaches it in the new
  session and commits its changes as an UPDATE; that path is not modelled.
  The save-update cascade is not modelled either: adding a `Produto` whose
  `categoria` is a new `Categoria` also inserts that category, and adding a
  `Categoria` also inserts the products in its `lista_de_produtos`.
- Repository.Table.BulkAdd: every entity is treated as a new row, and a batch
  with a stored key fails as a whole with `IntegrityError`.
  `bulk_save_objects` sends an UPDATE, not an INSERT, for an object that
  already carries an identity key (a detached object); that path is not
  modelled.
- Repository.Table.Update: the entity replaces the stored row as a whole.
  `merge` copies only the attributes that are set on the object, so a column
  that is unset or expired keeps its stored value. `merge` cascading into
  related objects is not modelled either.
- Orphan removal when a product is taken out of a category's list in memory
  ("delete-orphan") is not modelled. Only the delete of the category is.
- Result order is assumed to be table (insertion) order; the SQL has no
  `ORDER BY`.
- config.py (reading an .ini file), main.py (a demonstration script) and the
  test fixtures in tests/conftest.py are I/O and test plumbing.
- baseclass.py (an empty declarative base) and interfaces/IRepositorio.py
  (abstract signatures) hold no logic.
- Concurrency between callers: none exists at this layer.
