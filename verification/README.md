# parolrs core in Dafny

A model of the in-memory part of the `parolrs` password store and of its key
derivation:

- `Parol`, one credential entry: application, username, password, notes. It
  has two constructors and a getter/setter pair per field.
- `Parols`, the ordered container of entries. It keeps a cached `len` next to
  the vector. Its operations are `new`, `new_from_database`, `get`, `set`,
  `push`, `remove` and `len`. The out-of-range cases of `set` and `remove`
  return an error that carries the current length and the requested index.
- `key_from_slice`, which turns a password of at most 32 bytes into the
  32-byte XSalsa20-Poly1305 key. It copies the password and pads it on the
  right with zero bytes.

Files:

- `wrappers.dfy` (module `Wrappers`): `Option`, `Result` and `Outcome`, the
  Rust `Option<T>`, `Result<T, E>` and `Result<(), E>`.
- `core.dfy` (module `Core`): `src/core.rs`.
- `utils.dfy` (module `Utils`): `key_from_slice` of `src/utils.rs`.

The model is functional. A Rust method that takes `&mut self` is a function
that returns the new receiver together with the method's own result. A
method that takes `&self` returns only its result, so it cannot change the
receiver. Datatypes are values, so the `clone()` each getter performs is
implicit. `Core.GetApplication`, `Core.GetUsername`, `Core.GetPassword` and
`Core.GetNotes` are the four getters of `Parol`. `Set`, `Push` and `Remove`
return an `Updated(after, answer)`: the receiver after the call and the Rust
method's return value.

The class invariant of `Parols` is `Valid`: the cached length equals the
vector's length. `get`, `set` and `remove` compare `id` with the cached
length and then index the vector. They can therefore panic only when the
cached length is larger than the vector. Their precondition `Indexable`
excludes exactly that case; every valid container meets it. `push` always
recomputes the cached length from the vector, so it returns a valid
container even from a stale one. `set` and `remove` recompute it only when
they succeed; out of range they return `Err` before that assignment, so a
stale container comes back unchanged and still stale.

## Model

| member | source | states |
|---|---|---|
| Core.NewParol | src/core.rs:21-28 | all four fields of a new `Parol` are empty |
| Core.NewWithArguments | src/core.rs:42-49 | each getter returns the matching argument, in declaration order |
| Core.SetApplication | src/core.rs:52-69 | `get_application` afterwards returns the new value; the other three fields keep theirs |
| Core.SetUsername | src/core.rs:72-89 | `get_username` afterwards returns the new value; the other three fields keep theirs |
| Core.SetPassword | src/core.rs:92-109 | `get_password` afterwards returns the new value; the other three fields keep theirs |
| Core.SetNotes | src/core.rs:112-129 | `get_notes` afterwards returns the new value; the other three fields keep theirs |
| Core.ApplicationLens | src/core.rs:52-69 | writing back the value just read changes nothing; of two writes the second wins |
| Core.UsernameLens | src/core.rs:72-89 | writing back the value just read changes nothing; of two writes the second wins |
| Core.PasswordLens | src/core.rs:92-109 | writing back the value just read changes nothing; of two writes the second wins |
| Core.NotesLens | src/core.rs:112-129 | writing back the value just read changes nothing; of two writes the second wins |
| Core.SettersBuildNewWithArguments | tests/parol.rs:5-45 | filling an empty `Parol` with the four setters gives the record `new_with_arguments` builds |
| Core.NewParols | src/core.rs:146-151 | the new container is valid, has length 0, and `get` finds nothing at any index |
| Core.NewFromDatabase | src/core.rs:166-172 | the container is valid, its length is the input's, and `get(i)` is the input's element `i` in range and `None` beyond |
| Core.Get | src/core.rs:197-203 | `None` exactly when `id >= len`; otherwise the record at position `id` |
| Core.Set | src/core.rs:218-226 | out of range: error `(len, id)` and the container unchanged; in range: position `id` holds the new record, every other position and the length are unchanged, and the container is valid |
| Core.Push | src/core.rs:237-241 | the record is appended after the unchanged old records, the container is valid, and the answer is the new length, old length + 1 when the old container was valid |
| Core.Remove | src/core.rs:255-263 | out of range: error `(len, id)` and the container unchanged; in range: returns the old record at `id`, keeps the earlier records, shifts the later ones down by one, drops the length by one, and the container is valid |
| Core.Len | src/core.rs:274-276 | for a valid container, the number of records |
| Core.ValidIsIndexable | src/core.rs:197-203 | a valid container never makes `get`, `set` or `remove` index past the vector |
| Core.GetAfterSet | src/core.rs:218-226 | after an in-range `set`, `get(id)` is the new record and `get(j)` for `j != id` is as before |
| Core.SetUndo | src/core.rs:218-226 | setting the overwritten record back restores the container |
| Core.GetAfterPush | src/core.rs:237-241 | after `push`, `get(old len)` is the pushed record, lower indices read as before, higher ones read `None` |
| Core.RemoveUndoesPush | src/core.rs:237-263 | `remove(old len)` right after `push` returns the pushed record and the original container |
| Core.GetAfterRemove | src/core.rs:255-263 | after an in-range `remove(id)`, `get(j)` is the old `get(j)` below `id` and the old `get(j + 1)` from `id` on |
| Core.Step | src/core.rs:218-263 | one `push`, `set` or `remove` keeps the container valid; `push` adds one, `set` keeps the length, an in-range `remove` takes one away |
| Core.Run | src/core.rs:218-263 | any sequence of `push`, `set` and `remove` calls from a valid container leaves it valid and grows it by at most one per call |
| Utils.PaddedKey | src/utils.rs:19-23 | the key is 32 bytes: the password's bytes first, zero bytes after them |
| Utils.KeyFromSlice | src/utils.rs:14-29 | rejects exactly the passwords longer than 32 bytes, reporting the length; otherwise the byte-copy loop yields the zero-padded 32-byte key |
| Utils.EmptyPasswordGivesZeroKey | src/utils.rs:15-23 | the empty password is accepted and gives the all-zero key |
| Utils.SameKeyIffSameUpToTrailingZeros | src/utils.rs:19-23 | two passwords of at most 32 bytes give the same key if and only if they are equal after removing trailing zero bytes |
| Utils.TrailingZerosIgnored | src/utils.rs:19-23 | appending zero bytes to a password (within 32 bytes) does not change its key |

## Left out

- `Parols::new_from_json` and `Parols::to_json` (src/core.rs:178-183, 266-271): thin wrappers over serde_json, whose round-trip belongs to that library. `new_from_json` also trusts the serialized `len` field. A deserialized container need not be `Valid`, and `get` on it could index past the vector. `Indexable` is the precondition that rules out that panic.
- `load_database` and `save_database` (src/utils.rs:71-125): they chain file I/O with sodiumoxide's `secretbox::seal`/`open`, both foreign calls, and panic when decryption fails.
- `write_file`, `read_file`, `home_dir`, `database_dir` and `database_file` (src/utils.rs:36-65, 127-154): filesystem and environment plumbing.
- `src/main.rs`: a load-test driver, not a contract. It calls `save_database` with two arguments, but the function takes three (src/main.rs:20 against src/utils.rs:108).
- The text of the out-of-bounds error messages: the error is the datatype `OutOfBounds(len, id)` holding the two numbers the message prints.
- `usize` width: lengths and indices are unbounded naturals. A Rust vector of non-zero-sized records cannot reach `usize::MAX` elements, so `push`'s length never wraps.
- The UTF-8 encoding of the password: `key_from_slice` is modelled on the bytes of its UTF-8 encoding that `str::len` and `as_bytes` see; the encoding step itself is not modelled. The source's panic on a long password is modelled as `Failure(SliceTooLong(n))`.
- `Key::from_slice` (src/utils.rs:25-28): the buffer is always exactly 32 bytes long, so its `None` branch and the panic there cannot happen. The model returns the 32 bytes as the key.
