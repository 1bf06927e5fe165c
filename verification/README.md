# User store of the user-management service

This project models the in-memory user store of the user-management service
(`app/user-service/main.py`). The store is a dictionary `users_db` that maps a
generated id to a user record `{id, name, email, role}`. Five handlers work on it:

- `get_users` lists every record;
- `get_user` looks one up;
- `create_user` stores a new record under a fresh id;
- `update_user` replaces a whole record;
- `delete_user` removes one.

Update, get and delete answer "user not found" (HTTP 404) when the id is not a
key, and then change nothing.

The model is one module, `UserService`, in `user_service.dfy`:

- `User` and `UserCreate` are the two record shapes. `NewUserCreate` fills in
  the default role `"user"` when the request omits it.
- `Result<T>` is `Ok(value)` or `NotFound`. It stands in for the 404 exception.
- The class `UserStore` is the dictionary, changed in place by its methods. It has
  two fields: `users`, a `map<string, User>`, and `order`, the keys in insertion
  order. A Python dictionary hands out its values in insertion order. An overwrite
  keeps a key's position and `del` drops the key from that order.
- `Valid()` is the store's invariant. Every record is stored under its own id, and
  `order` lists each key exactly once.
- The functions `Lookup`, `Stored`, `Removed`, `Without` and `Listing` say what
  each handler does, as values. The class methods are proved to change the
  fields exactly as these functions say. The lemmas beside them prove the
  properties the handlers promise: frames, sizes, round trips, and that listing
  yields each record exactly once.

## Model

| member | source | states |
|---|---|---|
| `UserService.NewUserCreate` | app/user-service/main.py:19-22 | the request keeps the given name and email; the role is the given role, or `"user"` when none is given |
| `UserService.WithId` | app/user-service/main.py:57 | a record built from an id and a request carries that id and exactly the request's fields |
| `UserService.WithIdDumpRoundTrip` | app/user-service/main.py:57 | splitting a record into id and request fields and rebuilding it gives the same record |
| `UserService.Lookup` | app/user-service/main.py:47-51 | lookup succeeds exactly when the id is a key, and then answers the stored record |
| `UserService.Stored` | app/user-service/main.py:58 | storing adds the id to the key set and puts there a record with that id and the request fields; every other key keeps its record; records stay keyed by their own id |
| `UserService.Removed` | app/user-service/main.py:77 | deleting removes exactly that key; every remaining key keeps its record; records stay keyed by their own id |
| `UserService.Without` | app/user-service/main.py:77 | after deleting, the key order holds exactly the other keys; deleting an absent key leaves the order as it was |
| `UserService.WithoutKeepsDistinct` | app/user-service/main.py:77 | deleting a key from an order without repeats leaves an order without repeats |
| `UserService.WithoutAt` | app/user-service/main.py:77 | deleting the key at position i leaves the keys before and after it, in their old order |
| `UserService.Listing` | app/user-service/main.py:44 | the listing has one entry per key of the order: the record stored under the key at that position |
| `UserService.ListingMatchesStore` | app/user-service/main.py:42-44 | the listing has as many records as the store has keys, each listed record is the one stored under its id, every stored record is listed, and no id is listed twice |
| `UserService.CreateFreshAddsOneKey` | app/user-service/main.py:56-58 | create with a fresh id adds exactly that one key, the size grows by one, and all earlier entries are unchanged |
| `UserService.StorePresentKeepsKeys` | app/user-service/main.py:67-69 | storing under a present id (update, or a create whose id collides) keeps the key set and the size, and the id then maps to exactly the new fields, with nothing merged from the old record |
| `UserService.RemovePresentDropsOneKey` | app/user-service/main.py:73-77 | deleting a present id removes exactly that key and the size shrinks by one |
| `UserService.GetAfterStore` | app/user-service/main.py:56-69 | after create or update, get on that id answers exactly the id and the request fields; every other id answers as before |
| `UserService.GetAfterRemove` | app/user-service/main.py:72-78 | after delete, get on that id answers NotFound; every other id answers as before |
| `UserService.UserStore.constructor` | app/user-service/main.py:9 | the store starts empty and satisfies its invariant |
| `UserService.UserStore.GetUsers` | app/user-service/main.py:42-44 | returns the stored records in insertion order: one per key, as many as the store holds, each the record stored under its id, with no id twice |
| `UserService.UserStore.GetUser` | app/user-service/main.py:47-51 | returns the record stored under the id, or NotFound when the id is not a key; the returned record carries the requested id; the store is not changed |
| `UserService.UserStore.CreateUser` | app/user-service/main.py:54-59 | for a fresh id: returns a record with that id and the request's fields; the store becomes the old store plus that record under that id; the id is appended to the insertion order; the invariant is kept |
| `UserService.UserStore.UpdateUser` | app/user-service/main.py:62-69 | for an absent id: answers NotFound and leaves the store unchanged. For a present id: replaces the record with one made only of the id and the request fields, returns it, and keeps the key set and the order; the invariant is kept |
| `UserService.UserStore.DeleteUser` | app/user-service/main.py:72-78 | for an absent id: answers NotFound and leaves the store unchanged. For a present id: removes exactly that key from the records and from the order; the invariant is kept |
| `UserService.CreateThenGet` | app/user-service/main.py:54-59 | create then get returns the request's name, email and role under the new id |
| `UserService.UpdateThenGet` | app/user-service/main.py:62-69 | update then get returns exactly the new fields for a present id, and NotFound for an absent one |
| `UserService.DeleteThenGet` | app/user-service/main.py:72-78 | delete then get answers NotFound |

## Left out

- UserService.UserStore.CreateUser: requires that the id is not already a key. This stands for `uuid.uuid4()` producing a fresh id, which is assumed, not proved. The handler itself never checks for a collision; `StorePresentKeepsKeys` states what line 58 would do if one happened (silent overwrite).
- Id generation: the random UUID becomes a caller-supplied id. Neither its format nor its randomness is modelled.
- HTTP transport: FastAPI routing and decorators, status codes (201, 204, 404), the request-logging middleware, `read_root` and the `uvicorn` startup. A 404 is modelled only as the `NotFound` result.
- Request validation and `model_dump`: these are done by the validation library. Inputs are taken as already-typed strings.
- Concurrency: requests that share `users_db` could run at the same time. The model is sequential.
- The agent client in `app/llm-agent/main.py`: it is an HTTP client with printed diagnostics, a fabricated identity header and a scripted demo. Its response normalisation depends on the HTTP library's behaviour. None of it is modelled.
- Operation routing: the code has no operation catalog, dispatch table or argument-type validation, so none is modelled.
