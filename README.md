# Content-addressed image upload: a Dafny model

This project models the core of a Raycast extension that uploads images to
ImageKit and never uploads the same content twice. Both upload commands
(`src/index.tsx` and `src/upload-selected-image-in-finder.tsx`) run the same
`load` pipeline:

1. Take the Finder selection. If it is empty, stop in `no-selected-image`.
2. Read the first selected file and sniff its metadata.
3. Resolve the format and hash the bytes (SHA-256, base64url).
4. Look the hash up in `LocalStorage`. A known hash is answered from the store
   with `cache = true`.
5. An unknown hash is uploaded once as `hash.format` with unique naming off.
   After that the record is written under the hash and shown with
   `cache = false`.

The history command (`src/view-history.tsx`) lists every stored record newest
first. It deletes an upload remotely and drops the local record only when the
gateway answers with status 204.

Modules, one per component:

- `ImageTypes` (`image_types.dfy`): the record, the sniffed metadata, the
  gateway's requests and responses, and the command state.
- `LocalStore` (`local_store.dfy`): the key-value store as a class over a
  `map`.
- `Gateway` (`gateway.dfy`): the ImageKit client as a class that logs every
  call. The answer to each call is passed in.
- `Pipeline` (`pipeline.dfy`): the upload pipeline.
  - `Run` is the pure statement of one run.
  - `UploadCommand.Load` runs the same steps imperatively and is proved to
    have exactly `Run`'s effect on the state, the store and the gateway log.
  - There are lemmas for each case of a run and for any sequence of runs.
  - The format-label and markdown helpers live here too.
- `History` (`history.dfy`): the newest-first listing, the icon choice, and
  deletion as a pure rule (`AfterDelete`) and as the `HistoryView` class.

The two upload commands share one pipeline, selected by `Variant`. They
differ only in the record they build. The finder command adds `fileId`,
`hash` and `from = "finder"`; in the record of `src/index.tsx` these are `None`.

As in the source, `width` falls back to the sniffed **height** when the
gateway omits it.

Collaborators are inputs. `hashOf`, `sniff`, `extname` and `basename` are
uninterpreted functions in `Pipeline.Collaborators`. `fs.readFile` is a
function from path to bytes. `Date.now()` is a number. The gateway's answers
(`UploadResponse`, the delete status code) are parameters.

Three behaviours of the code that a reader might not expect:

- A failed upload makes the awaited call reject. `load` then stops. The state
  stays as it was (`initial`), nothing is written, and no error state is set.
  The failed attempt is still a gateway call and appears in the log.
- Stored values are never checked for corruption. Every stored value is
  `JSON.stringify` of a record, which is never an empty string, so a lookup
  hits exactly when the key is present. The store therefore holds records
  directly.
- `canceled` exists in the state type, but no code sets it.

"At most one upload per content" holds for successful uploads. After a
failed upload nothing is stored, so a later run tries again.
`SequentialRunsUploadOncePerHash` shows that, across any sequence of runs of
either command, no upload of a hash is attempted once an earlier upload of
that hash has succeeded.

## Model

| member | source | states |
|---|---|---|
| `Pipeline.Selected` | src/index.tsx:73-81 | The path worked on is absent exactly when the selection is absent or empty; otherwise it is the first path. |
| `Pipeline.ResolveFormat` | src/index.tsx:84 | The format is the sniffed type when there is one. Otherwise it is the extension minus its first character, or empty for an empty extension. |
| `Pipeline.UploadName` | src/index.tsx:100 | The upload name is the hash, then one `.`, then the format. Both parts can be recovered from it. |
| `Pipeline.NewRecord` | src/upload-selected-image-in-finder.tsx:63-84 | The new record takes `url`, `thumbnailUrl` and (finder) `fileId` from the response, `source` from the path, `format`, and `createdAt = now`. `size` falls back to the byte length. `height` and `width` both fall back to the sniffed height. The finder record carries `hash` and `from = "finder"`; the index record has neither. |
| `Pipeline.Run` | src/index.tsx:71-133 | One run makes at most one upload, always with unique naming off, and only for a hash not in the store. It never changes or removes an existing record. A new key appears only after a successful upload and equals the uploaded content's hash. A failed upload leaves store and state unchanged. A success shows the record stored under the hash. |
| `Pipeline.NoSelectionStops` | src/index.tsx:73-79 | An empty or absent selection gives `no-selected-image`, with no upload and an unchanged store. |
| `Pipeline.OnlyFirstPathMatters` | src/index.tsx:81-82 | Runs that agree on the first selected path and its bytes have the same outcome, whatever the other paths and files are. |
| `Pipeline.CacheHitAnswersFromStore` | src/upload-selected-image-in-finder.tsx:46-55 | A known hash gives `succeed` with `cache = true` and the stored record. There is no upload and the store is unchanged. |
| `Pipeline.CacheMissUploadsOnce` | src/upload-selected-image-in-finder.tsx:57-61 | An unknown hash gives exactly one upload: the file's bytes, named `hash + "." + format`, with `useUniqueFileName = false`. |
| `Pipeline.CacheMissPersists` | src/upload-selected-image-in-finder.tsx:72-92 | After a successful upload the store is the old store plus `hash ↦ record`. The state is `succeed` with `cache = false` and that record. The finder record's `hash` equals its key, its `fileId` is the response's, its `from` is `"finder"` and its `source` is the path. |
| `Pipeline.UploadFailureChangesNothing` | src/index.tsx:98-129 | When the upload fails, `setItem` and `setState` are not reached: store and state are unchanged. |
| `Pipeline.SecondRunIsCacheHit` | src/index.tsx:87-129 | Reopening a command on the same content after a successful run is a cache hit. It returns the same record (so the same URL) and uploads nothing; the two runs upload at most once. |
| `Pipeline.RunAll` | src/index.tsx:71-133 | Sequential runs make at most one upload call each and never change or remove a record that was already stored. |
| `Pipeline.RunKeepsOncePerHash` | src/upload-selected-image-in-finder.tsx:46-86 | One run preserves the deduplication invariant: content uploaded successfully is stored, and no later upload of it is attempted. |
| `Pipeline.RunAllKeepsOncePerHash` | src/upload-selected-image-in-finder.tsx:46-86 | Any sequence of runs preserves the deduplication invariant. |
| `Pipeline.SequentialRunsUploadOncePerHash` | src/index.tsx:87-123 | From any store, across any sequence of runs, content uploaded successfully stays in the store, and no upload of that content is attempted afterwards. |
| `Pipeline.RunKeepsKeysNamed` | src/upload-selected-image-in-finder.tsx:72-86 | One run keeps every stored record that carries a `hash` stored under exactly that hash. |
| `Pipeline.RunAllKeepsKeysNamed` | src/upload-selected-image-in-finder.tsx:72-86 | Any sequence of runs keeps every stored record that carries a `hash` stored under exactly that hash. |
| `Pipeline.StripLeadingDot` | src/index.tsx:164-166 | The format label drops exactly one leading `.` if there is one; otherwise it is the format unchanged. |
| `Pipeline.StripLeadingDotInverse` | src/index.tsx:164-166 | Stripping undoes one prepended dot. |
| `Pipeline.MarkdownCopy` | src/upload-selected-image-in-finder.tsx:129-131 | The copied text is `"![" + basename(source)` followed by `"](" + url + ")"`, and nothing else. |
| `Pipeline.MarkdownCopyRoundTrip` | src/upload-selected-image-in-finder.tsx:129-131 | The copied markdown parses back as an image link whose alt text is the source's base name and whose target is the URL, whenever the base name has no `]`. |
| `Pipeline.UploadCommand.constructor` | src/upload-selected-image-in-finder.tsx:24-28 | A command starts in state `initial`, with the shared store and gateway client. |
| `Pipeline.UploadCommand.Load` | src/upload-selected-image-in-finder.tsx:30-96 | The step-by-step pipeline has `Run`'s effect: the new state, the new store, and the old gateway log plus this run's upload calls. No delete calls are made. |
| `LocalStore.Store.GetItem` | src/index.tsx:87-89 | A lookup returns a record exactly when the key is stored, and then the stored record. |
| `LocalStore.Store.SetItem` | src/index.tsx:123 | A write sets that one key and changes no other. |
| `LocalStore.Store.RemoveItem` | src/view-history.tsx:41 | A removal drops that one key and changes no other. |
| `LocalStore.Store.AllItems` | src/view-history.tsx:21-23 | Lists every key exactly once, with the record stored under each. |
| `Gateway.ImageKit.constructor` | src/index.tsx:63-69 | A new client has made no upload and no delete call. |
| `Gateway.ImageKit.Upload` | src/index.tsx:98-102 | The upload call is appended to the log with its answer, and the answer is returned. |
| `Gateway.ImageKit.DeleteFile` | src/view-history.tsx:36 | The delete call is appended to the log, and the service's status code is returned. |
| `History.Insert` | src/view-history.tsx:25 | Inserting into a newest-first list keeps it newest first and adds one element. |
| `History.InsertPermutes` | src/view-history.tsx:25 | Inserting adds exactly the inserted record to the multiset of the list. |
| `History.SortNewestFirst` | src/view-history.tsx:25 | The sorted list is non-increasing in `createdAt` and a permutation of its input. |
| `History.HistoryMatchesStore` | src/view-history.tsx:21-26 | A history of a store has one entry per key, contains every stored record, and contains nothing that is not stored. |
| `History.HistoryView.constructor` | src/view-history.tsx:18 | The view starts with no list (`null`), over the shared store and client. |
| `History.HistoryView.Load` | src/view-history.tsx:19-30 | The loaded list is newest first and is a permutation of the store's values, one per key. |
| `History.IconFor` | src/view-history.tsx:54-58 | The icon is the clipboard icon exactly when `from` is `'clipboard'`; otherwise it is the file icon. |
| `History.AfterDelete` | src/view-history.tsx:37-41 | Unless the status code is exactly 204 the store is unchanged. With 204, exactly the key `image.hash` is gone and every other entry is unchanged. |
| `History.ConfirmedDeleteRemovesRecord` | src/view-history.tsx:36-41 | In a store whose records carry their own key, a 204 delete of a stored record that has a `hash` removes exactly its key. |
| `History.DeleteWithoutHashKeepsRecord` | src/view-history.tsx:41 | A stored record without `hash` (written by src/index.tsx) stays in the store even after a 204 delete. |
| `History.HistoryView.DeleteImage` | src/view-history.tsx:34-43 | The gateway is asked to delete `image.fileId`. The store then becomes `AfterDelete` of the old store. The shown `images` list and the upload log are unchanged. |

## Left out

- The React and Raycast UI: `Detail`, `List`, actions, toasts and HUDs. `setState` and `setImages` are assignments to a field.
- `toUnit` (src/index.tsx:43-53): floating-point division and `toFixed`, used only for display.
- `getDetailImage`, `ImageDetailMetadata`, `useImageKit` and `getFinderSelectedImages`: these files are not part of this model.
- SHA-256, `imageMeta`'s byte sniffing, `path.extname` and `path.basename` are uninterpreted functions. Collision resistance is not assumed: two contents with one hash share one record, as they do in the source.
- `fs.readFile` failing, and `imageMeta` throwing on unknown content, are not modelled. Either would reject `load` before the store is read.
- `JSON.stringify`/`JSON.parse`: the store holds records directly. A corrupted stored value, which would make `JSON.parse` throw, is not modelled.
- Asynchrony: each `load` is one sequential run. Concurrent runs of the same content, which could both upload, are outside the model.
- The order in which `LocalStorage.allItems` gives its entries, and the resulting order of records with equal `createdAt`, are unspecified. `SortNewestFirst` is stable, but stability is not stated.
- History.AfterDelete: a record without `hash` (one written by src/index.tsx) is treated as naming no stored key. What `removeItem(undefined)` does in Raycast is not modelled.
- The MARKDOWN_TEXT detail view (src/index.tsx:135-142) is presentation only.
