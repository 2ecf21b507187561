# Artist search engine

A model of `SearchEngine`, the search component of the artist search API. The
engine is built once over a list of artist records. Each record has an integer
`age`, a string `uuid`, and any other fields. `search` takes keyword arguments
and returns the records whose age is strictly below `max`, in input order. It
returns the whole list unchanged when `max` is absent, `None` or `0`.

- `wrappers.dfy`: module `Wrappers`, the `Option` type used for optional keyword arguments.
- `search.dfy`: module `Search`.
  - `Record` and `Query` are the record and the keyword arguments.
  - `Truthy` is Python truthiness of an optional integer.
  - `AgeBelow` is the list comprehension that filters.
  - Class `SearchEngine` holds the dataset in a `const` field set by its constructor.
  - `SearchEngine.Search` is the `search` method.
  - The lemmas state the engine's properties.

The order-preserving part is stated against an independent definition.
`Selection(r, s, idx, max)` says that `r` is `s` read at the strictly increasing
positions `idx`, and that `idx` lists exactly the positions of records younger
than `max`. The lemmas prove that the search result is such a selection and
that any such selection equals it. So nothing is invented, repeated, reordered
or dropped.

The design description of the system promises more than the code does:
- an inclusive `max`;
- an exclusive `min`;
- a ranking by distance from the midpoint of the filtered ages.

The code compares `age < max` strictly, reads `min` but never uses it, and does
no ranking. The model follows the code. `ThreeArtists` pins the differences on
concrete data. For example, `search(min=11, max=21)` over ages 10, 20 and 30
returns the records aged 10 and 20, not only the one aged 20.

## Model

| member | source | states |
|---|---|---|
| `Search.AgeBelow` | artist_search/search/views.py:22 | the result is no longer than the input; every kept record is from the input and younger than the bound; every input record younger than the bound is kept |
| `Search.SearchEngine.constructor` | artist_search/search/views.py:14-15 | the engine's dataset is the list it was given; the field is `const`, so no later call changes it |
| `Search.SearchEngine.Search` | artist_search/search/views.py:17-23 | with `max` absent, `None` or `0` the dataset comes back unchanged; otherwise a record is in the result exactly when it is in the dataset and its age is strictly below `max`; never longer than the dataset |
| `Search.AgeBelowIsSelection` | artist_search/search/views.py:22 | the filter reads the input at strictly increasing positions, and those are exactly the positions of records younger than the bound |
| `Search.SelectionUnique` | artist_search/search/views.py:22 | the dataset and the bound alone determine an order-preserving selection of the matching records |
| `Search.SearchIsTheSelection` | artist_search/search/views.py:20-23 | with `max` truthy, the search result is the order-preserving selection of the records younger than `max`, and every such selection equals it |
| `Search.AgeBelowIdempotent` | artist_search/search/views.py:22 | filtering a filtered list again with the same bound returns it unchanged |
| `Search.SearchIdempotent` | artist_search/search/views.py:20-23 | an engine built over a search result returns that result again for the same arguments |
| `Search.AgeBelowKeepsAll` | artist_search/search/views.py:22 | the filter keeps as many records as it was given exactly when every age is below the bound |
| `Search.SearchLength` | artist_search/search/views.py:20-23 | the result is never longer than the dataset; it is as long exactly when `max` is falsy or every age is below `max` |
| `Search.MinIgnored` | artist_search/search/views.py:17-23 | the `min` keyword, whatever its value, does not change the result |
| `Search.ThreeArtists` | artist_search/search/views.py:17-23 | over ages 10, 20, 30: `max=11` keeps only 10; `max=20` keeps only 10 (strict); `max=0` keeps all; `min` changes nothing |

## Left out

- `home_page` (artist_search/search/views.py:5-6) returns a constant HTML page through Django; it is HTTP glue with no logic.
- `api_page` (artist_search/search/views.py:9-10) is an empty stub with no behaviour.
- URL routing (artist_search/artist_search/urls.py) is framework configuration.
- The Django tests exercise only URL resolution and the home page, not the engine.
- Object identity: when `max` is falsy the source returns the same list object. The model states value equality only.
- Truthiness of bounds other than integers, and string-to-int coercion. The source does no coercion, so the bound is an optional integer.
- Positional arguments and keyword arguments other than `min` and `max`. The source ignores them, so `Query` does not carry them.
- Fields of a record other than `age` and `uuid` are modelled as a map from name to string. The engine returns records whole, so their values do not matter.
- Ranking by distance from the midpoint (bias), an inclusive `max` and an exclusive `min`. The source code implements none of them.
