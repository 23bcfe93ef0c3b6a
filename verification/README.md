# ProfileUpdater, pure transformation layer

ProfileUpdater grants a fixed list of Apex class accesses and object
permissions to every security profile of a Salesforce org, except for a
configured exclusion list. It lists the `Profile` metadata, computes one
update record per retained profile, cuts the records into batches of ten and
submits each batch in its own metadata update call.

This Dafny project models the pure part of that run in `index.js`:

- `batch(items, size)`: module `Batching` (`batching.dfy`). `Chunks` is a
  recursive reference partition. `Batch` is the source's `for` loop, which
  steps `i` by `size` and pushes `items.slice(i, i + size)`. It is proved to
  compute exactly `Chunks`.
- `extractProfileNamesFromMdt(metadata)`: module `ProfileNames`
  (`profile_names.dfy`). Percent-decoding (`decodeURIComponent`) is the
  parameter `decode: string -> string`, about which nothing is assumed.
- `updateClassAccess(classNames)` and the record-building loop: module
  `Records` (`records.dfy`).
- The main function from the listing result to the batches handed to the
  update calls: module `Pipeline` (`pipeline.dfy`).
- `shapes.dfy` (module `Shapes`) holds the shared shapes. `Input<T>` is either `JsArray(elems)`
  or `NotAnArray`. `NotAnArray` stands for every value that fails the source's
  `!x || !Array.isArray(x)` guard.

The configuration (`excludedProfiles`, `classAccess`, `objectAccess`) is a
parameter (`Records.Config<P>`), not a global. The object-permission structure
is the type parameter `P` and is passed through without being inspected.

The code writes `enabled` as the string `"true"` (index.js:55). The model
follows the code (`Records.EnabledFlag`).

## Model

| member | source | states |
|---|---|---|
| Batching.ChunksPartition | index.js:64-67 | Concatenating the chunks gives back the input. No chunk is empty or longer than `size`. Every chunk but the last has exactly `size` elements. There are ceil(length / size) chunks. |
| Batching.Batch | index.js:61-69 | A non-array input gives no chunks. For an array, the loop with the clamped `slice` computes exactly the reference partition `Chunks`, so it has the same flatten, shape and count properties. |
| Batching.ChunksUnique | index.js:64-67 | Any sequence of chunks that flattens back to the input and has the batcher's shape is equal to `Chunks`. The partition is therefore fully determined by those properties. |
| Batching.ChunksIndex | index.js:65-66 | Element `j` of chunk `k` is element `k * size + j` of the input. |
| Batching.Slice | index.js:66 | `slice(i, i + size)` is the plain subsequence when the range fits. It is the suffix from `i` when the end runs past the length. |
| ProfileNames.RetainMembers | index.js:39-45 | A name is kept if and only if it occurs in the input and is not excluded. |
| ProfileNames.ExtractProfileNames | index.js:36-46 | A non-array listing gives no names. Otherwise a name is in the result if and only if it is the decoded `fullName` of a listed descriptor and is not excluded. The result has one name per listed position whose decoded name is not excluded. |
| ProfileNames.RetainIsSelection | index.js:40-44 | The kept names are an order-preserving selection of the decoded names, with a list of the kept positions as witness. The selection keeps exactly the positions whose name is not excluded, so duplicates are kept. |
| ProfileNames.ExtractIsSelection | index.js:36-46 | For an array listing, the extracted names are an order-preserving selection of the decoded names that keeps exactly the non-excluded positions, with the kept positions as witness. Order is kept and duplicates are not removed. |
| ProfileNames.SelectionIsUnique | index.js:40-44 | Any order-preserving selection that keeps exactly the non-excluded positions equals the kept names. Together with `RetainIsSelection`, this characterises the result completely. |
| ProfileNames.RetainCount | index.js:40-44 | The number of kept names is the input length minus the number of excluded positions. |
| Records.GrantEach | index.js:51-57 | One entry per class name, in order. Entry `j` grants class `j` with `enabled` set to `"true"`. |
| Records.ClassAccesses | index.js:48-59 | A non-array argument grants nothing. Otherwise the result has the same length as the input. Entry `j` names class `j` and is enabled. Reading the class names back gives the input. |
| Records.BuildRecords | index.js:95-104 | There is exactly one record per retained name, in order, and record `i` names profile `i`. Reading the names back gives the input. Every record carries the same class-access list and the same object permissions, which default to none when the configuration has none. |
| Pipeline.PrepareUpdates | index.js:89-107 | A listing that is not an array makes the run fail with the source's message. Otherwise the batches flatten to exactly the built records. The batches have the batcher's shape for size 10, and there are ceil(records / 10) of them. |
| Pipeline.BatchedRecordAt | index.js:93-107 | Record `j` of batch `k` is the update for retained name `10 * k + j`, with the configured class accesses and object permissions. |
| Pipeline.TwentyThreeListedTwoExcluded | index.js:93-107 | 23 listed profiles with 2 excluded give 21 records in batches of sizes 10, 10 and 1. |

## Left out

- `connectToSalesforce`, `listMetadata` and `updateMetadata` (index.js:5-34, 71-81) are not modelled. They wrap the jsforce login, list and update calls in promises, and their only logic is the guards on missing arguments. `listMetadata` also ignores its `apiVersion` argument and always sends `'50.0'`.
- The `Promise.all` fan-out over the batches, the all-or-nothing join, the flattening of the per-batch results and the console report (index.js:108-117) are not modelled. They are concurrency and I/O, and the order of the results depends on the remote service.
- The check that a connection was established (index.js:86) is not modelled, because the connection is not part of this model.
- Percent-decoding is an uninterpreted parameter. Its UTF-8 details and the `URIError` that `decodeURIComponent` throws on a malformed name are not modelled. That error would abort the whole run.
- A listing element that is `null` or `undefined` is not modelled. In the source, reading its `fullName` (index.js:41) throws a TypeError, and the catch at index.js:118-119 ends the run.
- A descriptor without a `fullName` is not modelled. In the source, `decodeURIComponent(undefined)` yields the name `"undefined"`.
- A missing `excludedProfiles` entry in the configuration is not modelled. In the source, it makes `includes` throw. The model always has an exclusion list.
- A truthy `objectAccess` that is not an array is not modelled. The source would pass it through unchanged. The model has either a sequence or nothing.
- Batching.Batch: the batch size is a natural number greater than zero. A size of zero or less makes the source loop forever on a non-empty array; on an empty or non-array input it returns []. A fractional size is not modelled.
- Loading `config.json`, `dotenv` and the environment variables for the credentials (index.js:2-3, 85) is not modelled, because it is configuration I/O.
