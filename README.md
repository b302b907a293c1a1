# BentoMLC deployment glue, modelled in Dafny

BentoMLC packages a pre-compiled MLC-LLM model as a BentoML service. An
importer script (`import_model.py`) downloads the weights, compiles a shared
library and registers both in the BentoML model store under a tag. The
serving script (`service.py`) looks the model up under the same tag, picks
the one compiled `.so` library from the model's directory, starts the
runtime's serving context and streams completions.

Three pieces of that glue have behaviour that can be stated, and they are what
this project models:

- **The store tag** (`store_tag.dfy`, `import_model.dfy`, `service.dfy`).
  Both scripts compute `MODEL_ID.lower().split("/")[-1]`. `StoreTag.Tag` is
  that expression, built from models of the Python builtins in `py_str.dfy`:
  ASCII `str.lower` (`Lower`), `str.split` with a one-character separator
  (`Split`) and indexing with `[-1]` (`Last`). `py_str.dfy` also defines
  `RFind` (`str.rfind`) and `Basename` (`posixpath.basename`), which the
  scripts do not call: they are independent reference definitions of "the
  text after the last `/`", and the tag lemmas are stated against them. The
  lemmas show that the tag is the lower-cased text after the identifier's
  last `/`, that it has no `/` and no upper-case letter, that lower-casing
  first changes nothing, and that the two scripts' constants give the same
  tag, `llama-3-8b-instruct-q4f16_1-mlc`.
- **Finding the compiled library** (`Service.GetModelLib`). It models
  `MLC._get_model_lib` on the directory listing, which is taken as a
  parameter. The result is `Found(path)`, `Ambiguous` (the source's
  `ValueError`) or `NotFound` (its `FileNotFoundError`). The contract states
  each outcome in terms of the listing's entries. Lemmas show that the
  outcome does not depend on the order of the listing and that entries not
  ending in `.so` never change it. `os.path.join` with two POSIX path
  arguments is modelled by `PosixPath.Join`.
- **`ServerContextManager`** (`Service.ServerContextManager`). It is a class
  with the nullable field `context`. The runtime's `ServerContext` is
  abstract: ghost counters record the calls to `__enter__` and `__exit__`.
  The class invariant says that every context the manager created was
  entered exactly once and exited at most once.

## Model

| member | source | states |
|---|---|---|
| `PyStr.Lower` | import_model.py:13 | `str.lower` on ASCII text: same length, no upper-case letter left, each of `A`..`Z` turned into the matching letter of `a`..`z`, every other character kept in its place |
| `PyStr.LowerIdempotent` | import_model.py:13 | lower-casing twice is lower-casing once |
| `PyStr.RFind` | service.py:12 | position of the last occurrence of a character: it holds that character, none after it does, and -1 exactly when the character is absent |
| `PyStr.RFindLowerSlash` | import_model.py:13 | lower-casing neither creates nor removes a `/`, so the last `/` stays at the same index |
| `PyStr.Basename` | service.py:12 | the text after the last `/` is a suffix without `/`, and it is either the whole text or preceded by a `/` |
| `PyStr.BasenameUnique` | service.py:12 | those three facts determine the text after the last `/` uniquely |
| `PyStr.Split` | import_model.py:13 | `str.split(sep)` gives at least one piece, and no piece contains `sep` |
| `PyStr.Last` | import_model.py:13 | `xs[-1]`: the list is some prefix followed by the returned element |
| `PyStr.SplitJoin` | import_model.py:13 | joining the pieces of `split(sep)` with `sep` gives back the original text |
| `PyStr.SplitSingle` | import_model.py:13 | `split(sep)` gives a single piece exactly when `sep` does not occur |
| `PyStr.LastPieceAfterLastSep` | import_model.py:13 | `split(sep)[-1]` is the text after the last `sep`, or the whole text when there is none |
| `PyStr.RFindAppend` | import_model.py:13 | appending text without the character leaves its last occurrence where it was |
| `PyStr.EndsWithSomeSuffix` | service.py:72 | `str.endswith(suffix)` holds exactly when some suffix of the text equals `suffix` |
| `PosixPath.Join` | service.py:75-77 | `os.path.join(directory, name)` ends with `name`; for a relative name it starts with the directory, adds at most one character between them, that character is `/` when the directory is non-empty, and no character is added exactly when the directory is empty or already ends in `/`; an absolute name replaces the directory |
| `PosixPath.JoinBasename` | service.py:75-77 | for a non-empty name without `/`, the last component of the joined path is that name |
| `StoreTag.Tag` | import_model.py:13 | `model_id.lower().split("/")[-1]` never contains `/`; `service.py:12` uses the same expression |
| `StoreTag.TagIsBasenameOfLower` | import_model.py:13 | the tag is the last `/`-component (`posixpath.basename`) of the lower-cased identifier |
| `StoreTag.TagIsLowerBasename` | import_model.py:13 | the tag is equally the lower-cased last `/`-component of the identifier: lower-casing and taking the last component commute |
| `StoreTag.TagShape` | import_model.py:13 | the tag contains no `/` and no upper-case letter and is a suffix of the lower-cased identifier |
| `StoreTag.TagAfterLastSlash` | service.py:12 | the tag is the lower-cased identifier after its last `/`, or the whole lower-cased identifier when it has no `/` |
| `StoreTag.TagOfLowered` | import_model.py:13 | deriving the tag from an already lower-cased identifier gives the same tag |
| `StoreTag.TagIgnoresNamespace` | import_model.py:13 | `namespace/name` gets the tag `name.lower()` whatever the namespace, so identifiers that differ only there collide |
| `ImportModel.ShippedTag` | import_model.py:12-13 | the importer's constant `ImportModel.BENTO_MODEL_TAG`, derived from its constant identifier, is `llama-3-8b-instruct-q4f16_1-mlc` |
| `Service.TagMatchesImporter` | service.py:11-12 | the server's constant `Service.BENTO_MODEL_TAG` equals the importer's tag, and both are `llama-3-8b-instruct-q4f16_1-mlc` |
| `Service.ModelLibIsStemSo` | service.py:72 | an entry counts as a library exactly when it is some name followed by `.so` |
| `Service.ModelLibs` | service.py:72 | the list comprehension keeps no more names than listed, and each kept name is listed and ends in `.so` |
| `Service.ModelLibSuffixExact` | service.py:72 | a name ending in `.so` counts as a library; the same name with a character after `.so`, or with `.SO`, does not |
| `Service.ModelLibsMultiset` | service.py:72 | the list comprehension keeps every name ending in `.so` as often as it is listed and nothing else |
| `Service.GetModelLib` | service.py:71-81 | `NotFound` exactly when no entry ends in `.so`; `Ambiguous` exactly when two entries do; `Found(path)` only when exactly one entry does, with `path` the directory joined with that entry |
| `Service.NoLibs` | service.py:80-81 | the filtered list is empty exactly when no entry ends in `.so` |
| `Service.SeveralLibs` | service.py:78-79 | the filtered list has two or more names exactly when two entries end in `.so` |
| `Service.OneLib` | service.py:74-77 | when the filtered list has one name, it is the only entry ending in `.so` |
| `Service.UniqueLibFound` | service.py:74-77 | a listing with exactly one entry ending in `.so` yields `Found` of the directory joined with that entry |
| `Service.ModelLibsAppend` | service.py:72 | filtering a concatenated listing is concatenating the filtered parts |
| `Service.OtherEntriesIgnored` | service.py:72 | inserting any number of entries not ending in `.so` anywhere in the listing leaves the outcome unchanged |
| `Service.SameLibsAnyOrder` | service.py:72 | two listings with the same entries in any order filter to the same names with the same multiplicities |
| `Service.OrderIrrelevant` | service.py:72-81 | any two orderings of the same entries give the same outcome, including the same path |
| `Service.FoundPathNamesListedLib` | service.py:74-77 | for names as `os.listdir` returns them, the last component of a found path is a listed entry ending in `.so` |
| `Service.ServerContext.constructor` | service.py:31 | a new context has been neither entered nor exited |
| `Service.ServerContext.Enter` | service.py:32 | `__enter__` is counted once and changes no exit count |
| `Service.ServerContext.Exit` | service.py:38 | `__exit__` is counted once and changes no enter count |
| `Service.ServerContextManager.constructor` | service.py:27-28 | a new manager holds nothing and has started nothing |
| `Service.ServerContextManager.Start` | service.py:30-33 | creates a fresh context, enters it once, holds it and returns that same object; a context already held is dropped without an exit, and no earlier context's counters change |
| `Service.ServerContextManager.End` | service.py:35-39 | with a context held: exits it exactly once and clears the field; with nothing held: changes nothing; no other context's counters change, so a second `end()` causes no second exit |

## Left out

- Downloading weights, device detection, reading the chat configuration,
  JIT compilation and the memory-usage inspection (import_model.py:19-34) are
  calls into MLC-LLM plus file I/O.
- Creating the BentoML model-store entry and copying artifacts into it
  (import_model.py:36-38), and the store lookup `bentoml.models.get`
  (service.py:46), are external store and filesystem I/O. Rollback on failure
  belongs to BentoML.
- `os.listdir` (service.py:72) is not modelled. The listing is a parameter of
  `GetModelLib`, and any order is allowed.
- `AsyncMLCEngine` construction and the streaming `generate` endpoint
  (service.py:49-69) are left out. They are an async generator over an
  external engine.
- `ServerContext.add_model` (service.py:59) is a call into the runtime and is
  not modelled.
- What `ServerContext.__enter__` and `__exit__` do inside MLC-LLM is not
  modelled. `Service.ServerContext` only counts the calls, in ghost fields.
- The FastAPI app, router mounting, exception-handler registration
  (service.py:17-21) and logging configuration are framework wiring.
- `PyStr.Lower`: models ASCII lower-casing only. Python's `str.lower` also
  lowers non-ASCII letters; the identifiers here are ASCII.
- `Service.ServerContextManager.End` tests `context != null`. The source
  tests the truthiness of `self.context`, which is the same for an object that
  defines neither `__bool__` nor `__len__`; the runtime's class is not part
  of this model.
- The tag is not unique per model identifier: identifiers that differ only
  before their last `/`, or only in letter case, share a tag
  (`StoreTag.TagIgnoresNamespace`, `StoreTag.TagOfLowered`). Any directory
  entry whose name ends in `.so` counts as a library, directories included,
  and other shared-library extensions never count.
- `Service.ServerContextManager.Start` assumes that `ServerContext()` and
  `__enter__` do not raise. In the source, if `__enter__` raises, the
  manager is left holding a context that was never entered
  (service.py:31-32); the model has no exceptions, so that state is not
  reachable here.
- `Service.ServerContextManager.End` assumes that `__exit__` does not raise.
  In the source, if it raises, `self.context` is not cleared
  (service.py:38-39), and a later `end()` exits the same context a second
  time; the model's "exited at most once" invariant holds only under that
  assumption.
- Nothing in service.py calls `end()`; the model says what a call would do,
  not when one happens.
