# Task controller of the student task manager, in Dafny

This project models the task controller of a small task-tracking web
application. Every task route runs behind an authentication middleware, so each
handler receives a caller id that has already been resolved. The controller then
works on the task collection:

- `getAllTasks` lists the caller's tasks, newest first.
- `getTask`, `updateTask`, `deleteTask` and `markComplete` all run the same
  guard first. A missing id answers 404. Only after that is the stored owner
  compared with the caller's id, as strings, and a mismatch answers 403. Only a
  request that passes both checks reads or changes the record.
- `createTask` stores a new record. The caller is its owner, and its status
  defaults to `pending`.

The model has five modules:

- `Records` (records.dfy) defines the values: task records, request bodies and
  responses. Ids are kept in string form, because the guard compares
  `toString()` of both ids. The collection is a `map` from task id to record.
- `Listing` (listing.dfy) defines the owner filter and the newest-first order.
  Tasks with equal creation stamps may come in any order; the query does not
  fix one.
- `TaskController` (task_controller.dfy) gives each handler as a function. It
  maps the collection before a request to the response and the collection
  afterwards.
- `TaskCollection` (task_collection.dfy) holds the collection as a mutable
  field of a class. Its four state-changing handlers update that field in
  place, and each is proved equal to the handler function of the same name.
- `ControllerProperties` (properties.dfy) proves properties that span several
  requests. These cover ownership, the 404-before-403 order, idempotence,
  delete-then-get, and the effect of each operation on the listings.

One might expect a task's owner to be fixed at creation, but the code does not
enforce it. `updateTask` passes the whole request body to the store, so a body
that names a `userId` hands the task to another user
(`UpdateCanReassignOwner`). The model follows the code. For this reason the
isolation lemma for updates (`UpdateKeepsOtherListings`) covers every user
except the one the body names as the new owner.

The creation stamp and the id of a new record are assigned by the store, so
they are inputs to `CreateTask`. The stamp is an abstract natural number.

## Model

| member | source | states |
|---|---|---|
| Listing.OwnedBy | src/controllers/task.controller.js:6 | when every record is stored under its own id: the record of every key the user owns is selected, each selected record is the one stored under its id, and no two selected records share an id |
| Listing.NewestFirst | src/controllers/task.controller.js:6 | the result holds every given record exactly once and nothing else, and creation stamps never increase along it |
| Listing.NewestExists | src/controllers/task.controller.js:6 | every non-empty set of records has one whose stamp is at least every other's, so a newest-first order can always start |
| TaskController.Authorize | src/controllers/task.controller.js:23-38 | 404 exactly when the id is absent; 403 exactly when the id is present and the owner differs from the caller; otherwise the stored record is let through |
| TaskController.GetAllTasks | src/controllers/task.controller.js:4-9 | answers 200 with exactly the caller's stored records, never another user's, each once, newest first |
| TaskController.GetTask | src/controllers/task.controller.js:21-40 | 404 when the id is missing, 403 when it belongs to someone else, else 200 with the stored record |
| TaskController.StatusOrPending | src/controllers/task.controller.js:61 | a present non-empty status is kept; an absent or empty one becomes "pending"; the result is never empty |
| TaskController.NewTask | src/controllers/task.controller.js:54-63 | the new record has the caller as owner whatever the body says, the body's title, description, due date and priority, the defaulted status, and the assigned id and stamp |
| TaskController.CreateTask | src/controllers/task.controller.js:52-65 | answers 201 with the new record, adds exactly its id to the collection and leaves every existing record as it was |
| TaskController.Patched | src/controllers/task.controller.js:96-100 | patching never changes a record's id or creation stamp |
| TaskController.UpdateTask | src/controllers/task.controller.js:77-102 | 404 or 403 leaves the collection unchanged; for the owner, answers 200 with the patched record, replaces only that record and keeps the set of ids |
| TaskController.DeleteTask | src/controllers/task.controller.js:114-138 | 404 or 403 leaves the collection unchanged; for the owner, removes exactly that id and leaves every other record as it was |
| TaskController.Completed | src/controllers/task.controller.js:169 | the status becomes "completed" and every other field keeps its value |
| TaskController.MarkComplete | src/controllers/task.controller.js:150-172 | 404 or 403 leaves the collection unchanged; for the owner, answers 200 with the completed record, changes only that record and keeps the set of ids |
| TaskCollection.Collection.CreateTask | src/controllers/task.controller.js:54-65 | the in-place insert gives the same response and collection as TaskController.CreateTask and keeps every record under its own id |
| TaskCollection.Collection.UpdateTask | src/controllers/task.controller.js:79-102 | the in-place update gives the same response and collection as TaskController.UpdateTask; on 404 or 403 the collection is unchanged |
| TaskCollection.Collection.DeleteTask | src/controllers/task.controller.js:116-138 | the in-place delete gives the same response and collection as TaskController.DeleteTask; after a successful delete the id is gone |
| TaskCollection.Collection.MarkComplete | src/controllers/task.controller.js:152-172 | the in-place status change and save give the same response and collection as TaskController.MarkComplete; on success the stored record is "completed" |
| ControllerProperties.OwnershipDecidesAccess | src/controllers/task.controller.js:33-38 | for a task owned by A, every other user gets 403 with the collection unchanged from all four record handlers, and A gets 200 from all four |
| ControllerProperties.MissingIdIsNotFoundForEveryone | src/controllers/task.controller.js:23-30 | for a missing id, all four record handlers answer 404 (status code included) whoever asks, and the collection is unchanged |
| ControllerProperties.PatchAppliesPresentFields | src/controllers/task.controller.js:96-100 | every field present in the body, the owner included, overwrites the stored one, and every absent field is kept |
| ControllerProperties.PatchEmptyAndIdempotent | src/controllers/task.controller.js:96-100 | an empty body leaves the record as it was, and applying a body twice gives the same record as applying it once |
| ControllerProperties.UpdateCanReassignOwner | src/controllers/task.controller.js:96-100 | when the owner's update body names another user, that user can then read the task and the previous owner gets 403 |
| ControllerProperties.MarkCompleteIdempotent | src/controllers/task.controller.js:169-172 | completing sets the status to "completed" and changes nothing else; completing again gives the same response and collection |
| ControllerProperties.DeleteThenGetIsNotFound | src/controllers/task.controller.js:133-138 | after the owner deletes a task, a get on that id answers 404 for anyone |
| ControllerProperties.ListingDeterminedByOwned | src/controllers/task.controller.js:6 | two collections in which a user owns the same records give that user the same listing |
| ControllerProperties.DeleteKeepsOtherListings | src/controllers/task.controller.js:133 | a delete by one user leaves every other user's listing as it was |
| ControllerProperties.MarkCompleteKeepsOtherListings | src/controllers/task.controller.js:169-170 | completing a task leaves every other user's listing as it was |
| ControllerProperties.UpdateKeepsOtherListings | src/controllers/task.controller.js:96-100 | an update leaves the listing of every user other than the caller as it was, unless its body names that user as the new owner |
| ControllerProperties.CreateKeepsOtherListings | src/controllers/task.controller.js:56-63 | a create leaves every other user's listing as it was |
| ControllerProperties.CreateAddsToOwned | src/controllers/task.controller.js:56-63 | a create adds exactly the new record to the records the creator owns |
| ControllerProperties.StrictlyNewestHeadsListing | src/controllers/task.controller.js:6 | in a newest-first listing without repeats, a record strictly newer than all others comes first, followed by exactly the others |
| ControllerProperties.CreatedTaskListedFirst | src/controllers/task.controller.js:6 | a task created with a stamp later than every stored one heads the creator's listing, which grows by exactly that record |
| ControllerProperties.DeleteShrinksOwnListing | src/controllers/task.controller.js:133 | the owner's delete makes their own listing one shorter, and the listing keeps exactly the records whose id differs from the deleted one |
| ControllerProperties.CreateThenStrangerForbidden | src/controllers/task.controller.js:54-65 | a task "HW" created by Ann answers 201, is owned by Ann and "pending"; another user asking for it gets 403 while Ann gets it back |

## Left out

- The 500 branches are left out. They catch store or driver exceptions, and the model's store never fails.
- A malformed id makes `findById` throw, which leads to a 500 answer rather than 404. This is not modelled: the ObjectId format belongs to the driver, which is not part of this model.
- The task schema is not part of this model. That leaves out `runValidators`, required fields, enumerations for priority and status, defaults, the `updatedAt` timestamp and the removal of unknown body keys. Bodies carry only the six task fields, each a string when present.
- TaskController.UpdateTask: a body key for `createdAt` or `_id` is not modelled. Whether the store honours such a key depends on the schema, which is not part of this model.
- TaskController.GetAllTasks: the order among tasks with equal creation stamps is left unspecified, as the query leaves it.
- JSON `null` and other non-string values in request bodies are not modelled. Only "absent" and "present with a string" are.
- The creation stamp and the new id come from the store. They are inputs, and the new id must not be in use yet.
- `async` suspension is left out, and so is any interleaving between the guard's `findById` and the following write. Each request runs on its own.
- The authentication middleware (`protect`), the auth controller, token signing and password hashing are not part of this model. The caller is an already-resolved user id. Registration, login and token expiry are not modelled.
- The route wiring (src/routes/task.routes.js) and the server setup are left out. The only fact carried over is that every task route runs behind `protect`.
- The browser client (public/js) is left out. It holds DOM code and `fetch` calls.
