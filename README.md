# HTTPDBServer store and dispatcher, in Dafny

This project models the logic of `Server.go` in the HTTPDBServer repository: an
in-memory store of Teacher, Student and Staff records reached over one HTTP
endpoint. It covers:

- the store (`db`, an ordered slice of records, and the counter `FirstFreeId`);
- the linear lookup `GetIndex`;
- the twelve per-kind `Process` methods, collapsed into one operation per verb
  that takes a kind tag;
- the `Get*Action` factories;
- the dispatcher `UseAction`: it sniffs the encoding, decodes the envelope,
  resolves the object name and then the verb, and decodes the payload again;
- the store logic of `Handler`: the `GET` listing and the `DELETE` branch.

Modules, in dependency order:

- `Wrappers`: `Option` and `Result`.
- `Decimal`: `fmt.Sprint` of the counter (`NatToString`), its inverse, and the
  proof that distinct counter values give distinct identities.
- `Records`: the three record kinds as one datatype. `r.id` is `GetId()`.
- `StoreModel`: the store as a value (`State`). It holds the lookup, the create,
  update and delete transitions, the `GET` listing, and the store invariant
  `Valid`. `Valid` says every identity is the decimal form of some `n` with
  `1 <= n < FirstFreeId`, and no two records share an identity. Lemmas prove
  that each transition keeps it.
- `Actions`: verbs, `DefinedAction` and the factories. `Apply` is what
  `Process` does to the store and what it replies. The lemmas here relate
  consecutive operations: create then read, update then read, delete then read.
  `Run` folds `Apply` over a sequence of actions. The trace lemmas prove that
  no identity is ever minted twice.
- `Dispatch`: `Sniff`, `ResolveKind`, `ResolveVerb`, and `Select`, the pure
  selection half of `UseAction`. `Respond` and `Serve` give `UseAction` and
  `Handler` as transitions.
- `Server`: class `Store` with the fields `db` and `firstFreeId`. Its methods are
  the imperative operations, each proved to perform the transition of the pure
  modules: `GetIndex` and `ListIds` as loops, create/update/read/delete,
  `Process`, `UseAction` and `Handle`.

Modelling choices:

- A Go run-time panic is the reply `Panic`, with the store unchanged. The source
  panics in read and update when the identity is absent (it indexes
  `(*db)[-1]`) or when the slot holds another kind (the type assertion fails).
  Both panics happen before anything is written. `Store.Read` and `Store.Update`
  require the slot to be usable. `Store.Process` performs the check the Go run
  time performs and answers `Panic` when it fails.
- Delete does not report NotFound. With no match it changes nothing and still
  answers with its fixed success text, as the code does.
- The delete loop follows Go's slice semantics. `range` fixes the length once
  and reads through the shared backing array, and every splice shifts that
  array in place. A second match past the shortened slice would make Go panic.
  Under the invariant this cannot happen, and the model proves it: the slice
  bound is a proof obligation in `Server.Store.RemoveMatching`, discharged by
  the uniqueness of identities.
- An intended design is that a failed payload decode leaves the store unchanged.
  The code does not do that: `GetFromJSON`/`GetFromXML` only print the error,
  and `Process` then runs on a zero or partly filled payload. The model follows
  the code. The decoded payload is an unconstrained input (`Decoder.record`,
  `Decoder.id`), so no claim is made about inner decode failures. Only an
  envelope decode failure stops the request.
- The encoding is chosen from the first byte exactly (`strings.HasPrefix`), not
  from the first non-control byte.
- Read replies are `Snapshot(record)`: the record that `fmt.Sprintf` formats.

## Model

| member | source | states |
|---|---|---|
| `Decimal.NatToString` | Server.go:104 | The identity minted from the counter is a non-empty string of decimal digits with no leading zero. |
| `Decimal.ParseFormat` | Server.go:104 | Reading the decimal identity back gives the counter value it was minted from. |
| `Decimal.FormatInjective` | Server.go:104-107 | Two counter values give the same identity exactly when they are equal, so a bumped counter never mints an identity again. |
| `Decimal.FormatHasNoSpace` | Server.go:509 | A minted identity contains no space, the separator of the `GET` listing. |
| `StoreModel.Init` | Server.go:50 | Definition, no contract: the start-up store, empty with counter 1. Proved about in `StoreModel.InitValid`, `StoreModel.SuccessiveCreates` and `Actions.FreshServerMints`. |
| `StoreModel.Valid` | Server.go:12 | Definition, no contract: the store invariant (counter at least 1, identities unique, each the decimal form of a counter value already used). Proved kept in `StoreModel.CreatedValid`, `StoreModel.ReplacedValid`, `StoreModel.RemovedValid`, `Actions.ApplyValid`, `Actions.RunValid` and `Dispatch.ServeValid`. |
| `StoreModel.Created` | Server.go:102-111 | Definition, no contract: create as a transition. Proved about in `StoreModel.CreatedValid`, `StoreModel.CreatedAllStamps`, `Actions.CreateThenRead` and `Server.Store.Create`. |
| `StoreModel.Replaced` | Server.go:135-144 | Definition, no contract: update as a transition. Proved about in `StoreModel.ReplacedValid`, `Actions.UpdateThenRead` and `Server.Store.Update`. |
| `StoreModel.Removed` | Server.go:203-212 | Definition, no contract: delete as a transition, the first match spliced out. Proved about in `StoreModel.RemovedIsFilter`, `StoreModel.RemovedValid`, `Actions.DeleteThenRead` and `Server.Store.RemoveMatching` (which runs the loop at 518-529). |
| `Records.ZeroRecord` | Server.go:558-568 | The zero struct of each kind has that kind and an empty identity. |
| `Records.WithId` | Server.go:104 | Stamping an identity changes only the identity and keeps the record's kind. |
| `StoreModel.IndexOf` | Server.go:70-77 | The lookup returns the smallest position holding the identity, and -1 exactly when no position holds it. |
| `StoreModel.IndexOfFirst` | Server.go:70-77 | A position holding the identity, with none before it, is the one the lookup returns. |
| `StoreModel.InitValid` | Server.go:50 | The start-up store (empty, counter 1) satisfies the invariant. |
| `StoreModel.CreatedValid` | Server.go:102-111 | The identity a create mints is absent from the store, and create keeps unique, counter-issued identities (all three kinds: also 244-253, 386-395). |
| `StoreModel.CreatedAllStamps` | Server.go:102-111 | Successive creates append their records in order, stamped with consecutive counter values, leave earlier records alone, and raise the counter by the number of creates. |
| `StoreModel.SuccessiveCreates` | Server.go:50 | From a fresh store, the n-th create gets identity "n+1": "1", "2", "3", ... with no gap and no reuse. |
| `StoreModel.ReplacedValid` | Server.go:135-144 | An update that overwrites the slot of its own identity keeps the invariant, and the identity is found in the same slot afterwards. |
| `StoreModel.WithoutId` | Server.go:205-209 | Reference removal: the result holds exactly the records of the input whose identity differs, in their order. |
| `StoreModel.RemovedIsFilter` | Server.go:205-209 | With unique identities, splicing out the first match is the same as keeping, in order, every record with another identity. |
| `StoreModel.SplicedTailDiffers` | Server.go:205-209 | After the splice at the match, no later slot of the shifted backing array, the stale last slot included, holds that identity again. |
| `StoreModel.RemovedValid` | Server.go:203-212 | Delete keeps the invariant, and the identity is absent afterwards. |
| `StoreModel.TokensOfIdList` | Server.go:506-511 | When no identity contains a space, splitting the `GET` reply at spaces gives back the identities in store order. |
| `StoreModel.ListingReadsBack` | Server.go:506-511 | In a valid store the `GET` reply lists exactly the stored identities, in store order. |
| `StoreModel.IdList` | Server.go:506-511 | Definition, no contract: the `GET` listing. Proved about in `StoreModel.TokensOfIdList`, `StoreModel.ListingReadsBack` and `Server.Store.ListIds`. |
| `Actions.GetAction` | Server.go:80-82 | Each factory (also 113-115, 146-148, 179-181 and the Student and Staff ones) yields an action of its kind and verb whose payload is still the zero value. |
| `Actions.Usable` | Server.go:139 | Definition, no contract: the slot of the identity exists and holds the action's kind, so the indexing and the type assertion (also 173) do not panic. Proved about in `Actions.ReadAndPanicKeepState`. |
| `Actions.Apply` | Server.go:589 | Definition, no contract: what each `Process` body (102-111, 135-144, 170-177, 203-212 and their Student and Staff twins) does to the store and replies. Proved about in `Actions.ApplyValid`, `Actions.CreateThenRead`, `Actions.UpdateThenRead`, `Actions.DeleteThenRead` and `Server.Store.Process`. |
| `Actions.ApplyKeepsKinds` | Server.go:135-144 | An update whose payload has the action's kind, and any read, keep the store's length and the kind held in every slot. |
| `Actions.ApplyValid` | Server.go:589 | Every `Process` keeps the invariant; the counter rises by exactly one on create and is unchanged by update, read and delete. |
| `Actions.ReadAndPanicKeepState` | Server.go:170-177 | Reads and panics leave the store as they found it; a panic happens exactly for a read or update whose identity is absent or whose slot holds another kind. |
| `Actions.CreateThenRead` | Server.go:102-111 | Create replies "<Kind> created successfully\n", appends the payload stamped with the old counter (ignoring its own identity) as the last element, bumps the counter, and a read of the new identity returns that record. |
| `Actions.UpdateThenRead` | Server.go:135-144 | A successful update replies "<Kind> updated successfully\n", overwrites exactly the slot of its identity, keeps the length, every other slot and the counter, and a read then returns the new record. |
| `Actions.DeleteThenRead` | Server.go:203-212 | Delete replies "<Kind> deleted successfully\n", leaves the counter alone, keeps every other record in order, and afterwards a read of the identity panics and the `GET` listing no longer contains it. |
| `Actions.DeleteAbsent` | Server.go:203-212 | Deleting an identity that is not stored changes nothing and still reports success. |
| `Actions.TeacherSession` | Server.go:102-111 | On a fresh store: create a teacher, get identity "1", read it back, delete it; a second read panics and the listing is empty. |
| `Actions.RunValid` | Server.go:589 | Any sequence of actions keeps the invariant, and the counter ends at its start value plus the number of creates in the sequence. |
| `Actions.MintedStamps` | Server.go:102-107 | In any sequence of actions, the k-th create mints the decimal form of the start counter plus k. |
| `Actions.NoReuse` | Server.go:102-107 | In any sequence of actions, two creates never mint the same identity, and no create mints an identity issued before the sequence began, whatever updates, reads and deletes come between. |
| `Actions.FreshServerMints` | Server.go:50 | From the start-up store, the k-th create of any sequence mints "k+1", and the counter ends one above the number of creates. |
| `Dispatch.Sniff` | Server.go:539-545 | A body starting with `{` selects JSON, one starting with `<` selects XML, anything else selects neither. |
| `Dispatch.ResolveKind` | Server.go:558-568 | The object name resolves to a kind exactly when it is that kind's name: "Teacher", "Student" or "Staff". |
| `Dispatch.ResolveVerb` | Server.go:571-582 | The action name resolves to a verb exactly when it is that verb's spelling: "create", "update", "read" or "delete". |
| `Dispatch.Decode` | Server.go:584-588 | The second decode keeps the action's kind and verb and takes the record, or the `data.id`, from the decoder. |
| `Dispatch.Select` | Server.go:537-588 | The dispatcher replies "Unsuported file type\n" for an unknown encoding, the error text plus newline for a broken envelope, "unknown object <name>\n" before it looks at the verb, and "unknown action <verb>\n" after that. It selects an action exactly when all four steps succeed; that action has the named kind and verb, and its payload comes from the same decoder as the envelope and, for create and update, has the action's kind. |
| `Dispatch.BytesToString` | Server.go:524 | `string(id)` keeps the length and each byte's code. |
| `Dispatch.ServeValid` | Server.go:505-535 | Every request keeps the store invariant; the counter never decreases, and it changes only on POST. |
| `Dispatch.RejectedKeepsState` | Server.go:539-582 | A POST that the dispatcher rejects leaves the store unchanged and replies with the diagnostic. |
| `Dispatch.Respond` | Server.go:537-590 | Definition, no contract: `UseAction` as a transition. Proved about in `Dispatch.RejectedKeepsState`, `Dispatch.ServeValid` and `Server.Store.UseAction`. |
| `Dispatch.Serve` | Server.go:505-535 | Definition, no contract: `Handler` as a transition. Proved about in `Dispatch.ServeValid`, `Dispatch.ServeDeleteThenRead` and `Server.Store.Handle`. |
| `Dispatch.ServeDeleteThenRead` | Server.go:514-531 | An HTTP DELETE replies "Object deleted successfully\n", keeps the counter, keeps every record with another identity in order, and afterwards a read of the body's identity panics and the `GET` listing no longer contains it. |
| `Server.Store.constructor` | Server.go:12 | The store starts empty, with counter 1, and valid. |
| `Server.Store.GetIndex` | Server.go:70-77 | The scan returns the lookup's position: the first match, or -1 exactly when nothing matches. It changes nothing. |
| `Server.Store.Create` | Server.go:102-111 | The store becomes the old records plus the payload stamped with the old counter, the counter rises by one, the invariant holds, and the reply is the kind's created text. |
| `Server.Store.Update` | Server.go:135-144 | Given a usable slot: that slot now holds the payload, every other slot, the length and the counter are unchanged, the invariant holds, and the reply is the kind's updated text. |
| `Server.Store.Read` | Server.go:170-177 | Given a usable slot: it returns the record of that identity and kind, and changes nothing. |
| `Server.Store.RemoveMatching` | Server.go:518-529 | The Go scan-and-splice loop, backing-array aliasing included, leaves exactly the store with the first match removed (or unchanged), keeps the counter and the invariant, and never hits the slice-bounds panic. |
| `Server.Store.Delete` | Server.go:203-212 | The delete actions remove the matching record as above and reply with the kind's deleted text. |
| `Server.Store.ListIds` | Server.go:506-511 | The accumulation loop produces the listing: every identity followed by a space, in store order. It changes nothing. |
| `Server.Store.Process` | Server.go:589 | Running an action gives the new store and reply of `Apply`, with a panic for an unusable read or update slot. |
| `Server.Store.UseAction` | Server.go:537-590 | The store and reply are those of `Respond`; on every diagnostic path the store is untouched. |
| `Server.Store.Handle` | Server.go:505-535 | GET lists the identities, POST dispatches, DELETE removes the body's identity and replies "Object deleted successfully\n", any other method replies "Unknown cmd\n". |

## Left out

- Locking: `GlobalMutex` and the per-record `mutex` channels exist only for
  concurrent requests. Every operation is modelled as one atomic, sequential
  step. The window in read and update, where `GlobalMutex` is released before
  the record's channel is taken, is not modelled either.
- JSON and XML decoding are library calls (`json.Unmarshal`, `xml.Unmarshal`).
  Their results on the request body are the `Codec` input: the envelope or the
  error's text, the `data` record of each kind, and `data.id`.
- Formatting: the `fmt.Sprintf` text of read replies (`%.2f`, `%v`) and the
  `Print` methods are not modelled. A read reply is the record itself, and
  `Salary` is an opaque 64-bit pattern. The formatted text at Server.go:176,
  318 and 460 prints only `Name` and `Surname` of the embedded person and
  omits `PersonalCode`. `Snapshot` carries the whole record, so the model's
  read reply holds more than the text the source sends.
- HTTP plumbing: `http.HandleFunc`, `ListenAndServe`, `main`, and writing the
  reply. `Handle` starts once the body has been read; the early return on an
  `io.ReadAll` error is not modelled.
- Decimal.NatToString: does not model the 64-bit range of Go's `int` counter.
  A wrap-around after 2^63 - 1 creates is outside the model.
- Go's static types guarantee that `CreateTeacher` decodes a `Teacher`. In the
  model the type `RecordDecoder` carries that guarantee, and `Dispatch.Select`
  proves every selected action kind-correct (`Actions.WellKinded`). `Apply` is
  defined on every `DefinedAction`, including ill-kinded ones the dispatcher
  never builds. So `Actions.CreateThenRead`, `Actions.UpdateThenRead` and
  `Actions.ApplyKeepsKinds` state the kind of the payload as a requirement.
- Go strings are byte strings. The model uses `string` for identities and
  texts, and `BytesToString` maps each byte to the character with the same code.
- The panic in the delete loop on repeated identities is proved unreachable
  under the invariant. Its effect is not modelled: `GlobalMutex` would stay held.
- `min` is unused, and Client.go is an interactive client. Neither is part of
  this model.
