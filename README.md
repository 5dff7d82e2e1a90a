# Petstore REST API: request handlers and image naming

This project models the core of a small Flask REST API for "pet" records
(in the style of the Swagger Petstore). It covers the request handlers in
`app/views.py` and the two helpers of the image-upload resource.

- **`PetImage`** (`pet_image.dfy`) models two helpers.
  - `_isValidImage` is the content-type whitelist.
  - `_getUniqueFileName` is the rename-on-collision loop. It is a `while`
    loop over a set of taken full paths. Python's `str.rfind(".")` and its
    negative slice bounds are written out, so a name without a dot behaves
    exactly as in Python: `"abc"` becomes `"ab1.abc"` and `""` becomes `"1."`.
- **`Petstore`** (`petstore.dfy`) models the handlers.
  - The class `PetStore` holds the document store as `pets: map<int, Pet>`.
  - `order: seq<int>` is the order in which queries return documents.
  - `files: set<string>` holds the full paths in the images directory.
  - Each handler is a method. It returns `Response(code, body)`, and its
    `ensures` says which checks run, in which order, and exactly what the
    new store is.
- **`Wrappers`** (`wrappers.dfy`) holds the `Option` datatype.

The store invariant (`StoreInvariant`) says three things:

- every pet is filed under its own id;
- `order` lists exactly the stored ids;
- `order` has no repetitions.

Every handler preserves it.

The `Utils` validators are left uninterpreted, because that module is not
part of this model. They are function-valued fields of `Util`:

- `isValidStatus` is `Util._isValidStatus`;
- `isValidId` is `Util._isValidId`, with `None` standing for any falsy
  result;
- `pyInt` is Python's `int()` on a string, with `None` where it raises.

`CheckedId` adds the source's `if not id`, so a parsed `0` is rejected too.
The configured message strings are the opaque constructors of `Message`.
The API key, the image link prefix and the images directory are kept in
`Config`.

## Model

| member | source | states |
|---|---|---|
| `PetImage.IsValidImage` | app/views.py:173-182 | true exactly for the six listed content types, compared exactly and case-sensitively; every accepted type starts with `image/` |
| `PetImage.RFindDot` | app/views.py:201 | `rfind(".")`: -1 or the index of a dot, with no dot after it; so -1 exactly when the name has no dot |
| `PetImage.PyIndex` | app/views.py:202 | Python's reading of a slice bound: an in-range bound is kept, a negative one counts from the end, one past the end clamps to the length, one before the start clamps to 0 |
| `PetImage.SliceTo` | app/views.py:202 | `s[:i]`: the first `PyIndex(i, len(s))` characters of `s` (definition, no contract of its own) |
| `PetImage.SliceFrom` | app/views.py:202 | `s[i:]`: `s` from position `PyIndex(i, len(s))` on (definition, no contract of its own) |
| `PetImage.Rename` | app/views.py:201-202 | one loop step: `name[:index] + "1." + name[index+1:]` with `index = name.rfind(".")` (definition; its properties are the `Rename*` lemmas) |
| `PetImage.Renamed` | app/views.py:200-202 | the candidate after k loop steps: `Rename` applied k times to the input (definition; its properties are `RenamedForm` and `RenamedLonger`) |
| `PetImage.Stem` | app/views.py:201-202 | `name[:name.rfind(".")]`: the text before the last dot, or all but the last character when there is no dot (definition) |
| `PetImage.Ext` | app/views.py:201-202 | `name[name.rfind(".")+1:]`: the text after the last dot, or the whole name when there is no dot (definition) |
| `PetImage.RenameDotted` | app/views.py:200-202 | for a name with a dot, one step inserts a single `1` right before the last dot; the length grows by one; the new last dot is one place later; the extension is unchanged |
| `PetImage.RenameUndotted` | app/views.py:201-202 | for a name without a dot, one step yields `name[:-1] + "1." + name`; length n becomes 2n+1 (and 0 becomes 2); the result has a dot; its extension is the whole old name |
| `PetImage.RenameUndottedExamples` | app/views.py:201-202 | `"abc"` becomes `"ab1.abc"` and `""` becomes `"1."` |
| `PetImage.RenameDottedExample` | app/views.py:201-202 | `"cat.png"` becomes `"cat1.png"` |
| `PetImage.RenameGrows` | app/views.py:200-202 | every step strictly lengthens the name, and after any step the name contains a dot |
| `PetImage.RenamedForm` | app/views.py:200-202 | after k steps the candidate is stem + k ones + `.` + extension, with the original extension; for a dotted name this holds from k = 0 |
| `PetImage.RenamedLonger` | app/views.py:200-202 | a later candidate is strictly longer than an earlier one, so no candidate is tried twice |
| `PetImage.RenamedEmpty` | app/views.py:200-202 | a candidate is the empty name exactly when the upload name is empty and no step was taken |
| `PetImage.GetUniqueFileName` | app/views.py:199-203 | the loop terminates for every finite set of existing files; the result's full path is free; the result is the input when the input is free; otherwise it is the k-th candidate, every earlier candidate was taken, and it has the closed form stem + k ones + `.` + extension |
| `Petstore.CheckedId` | app/views.py:85-87 | an id passes exactly when the validator returns a number other than 0 (`if not id`), and then it is that number |
| `Petstore.Without` | app/views.py:129 | after the delete, the document order holds exactly the ids it held before except the deleted one |
| `Petstore.WithoutDistinct` | app/views.py:129 | removing an id keeps the document order free of repetitions |
| `Petstore.StoreInvariant` | app/views.py:46-47 | the store's shape: every pet is filed under its own id, the query order lists exactly the stored ids, and no id twice (definition) |
| `Petstore.PetStore.Valid` | app/views.py:46-47 | the store object satisfies `StoreInvariant` on its `pets` and `order` (definition) |
| `Petstore.PetStore.constructor` | app/views.py:9-12 | opens a store over given documents, query order and image files that satisfy the invariant, with the given configuration and validators |
| `Petstore.WithStatus` | app/views.py:63 | `Pet.objects(status=stat)`: the stored pets whose status is `stat`, in query order; never longer than the id list, and every entry has status `stat` |
| `Petstore.AllWithStatus` | app/views.py:59-64 | the `extend` loop: each requested status's query result, concatenated in request order; every entry has one of the requested statuses |
| `Petstore.WithStatusMembers` | app/views.py:63 | `Pet.objects(status=stat)` returns exactly the stored pets whose status is `stat`, whatever the id list |
| `Petstore.QueryMatchesStore` | app/views.py:63 | over a well-formed store, a pet is in a status query's result exactly when it is stored and has that status |
| `Petstore.AllWithStatusAppend` | app/views.py:59-64 | the `extend` loop is compositional: the result for `a + b` is the result for `a` followed by the result for `b` |
| `Petstore.AllWithStatusMembers` | app/views.py:59-64 | a pet is listed exactly when it is stored and its status is one of the requested ones |
| `Petstore.RepeatedStatusRepeats` | app/views.py:60-64 | requesting a status twice lists its pets twice |
| `Petstore.PetStore.FindByStatus` | app/views.py:55-72 | 400 with no list if any requested status is invalid; otherwise 200 with the concatenation, in request order, of each status's matching pets; the store is never changed |
| `Petstore.PetStore.Get` | app/views.py:84-95 | invalid id gives 400, then an unknown id gives 404; otherwise 200 with the stored pet; the store is unchanged |
| `Petstore.PetStore.Put` | app/views.py:35-52 | invalid status gives 405, then `int(id)` failing gives 400, then an unknown id gives 404 with nothing inserted; otherwise only that id's record is replaced by the request's fields; order and files are unchanged |
| `Petstore.PetStore.UpdateWithForm` | app/views.py:97-116 | invalid id gives 400, then invalid status gives 405, then an unknown id gives 404; otherwise only `name` and `status` of that pet change; every other pet and field is kept |
| `Petstore.PetStore.Delete` | app/views.py:118-133 | a wrong or missing `api_key` gives 400 before the id is looked at, then invalid id gives 400, then an unknown id gives 404 with the store unchanged; otherwise exactly that id leaves the store and the order |
| `Petstore.PetStore.UploadImage` | app/views.py:141-171 | invalid id gives 400, then an unknown pet gives 404, then a non-image type gives 400, each leaving pets and files unchanged; an empty upload name whose target is the images directory itself makes the save raise, giving 500 with pets and files unchanged; otherwise the file goes under a fresh name chosen by the rename loop, and only that pet's `photoUrls` changes, gaining `IMAGES_LINK + fileName` at the end |
| `Petstore.PetStore.SaveFile` | app/views.py:189-197 | the chosen name is free in the images directory and is the rename loop's k-th candidate after k taken ones; the write fails exactly when that name is empty (the upload name is empty and the directory path is not a taken file), leaving the files unchanged; otherwise exactly its full path is added to the files |
| `Petstore.PetStore.UpdateDocument` | app/views.py:184-187 | appends exactly one link, `IMAGES_LINK + fileName`, to the end of the pet's `photoUrls`; nothing else changes |

## Left out

- Flask routing, `reqparse` and the request objects (headers, query arguments, form fields, uploaded files) are framework I/O. The handlers take the parsed arguments as plain inputs. A missing required argument, which `reqparse` rejects before the handler runs, is not modelled.
- `Petstore.PetStore.UpdateWithForm`: the form fields `name` and `status` are optional in the source and become `None` when absent. The model takes them as strings and does not capture a `None` being stored.
- `PetInsertionAPI.post` (`POST /pet`, app/views.py:24-33) is not modelled. Its only check is the status check. After that, the id conversion and the upsert both happen inside the `Pet` document class, and the `models` file is not part of this model.
- The mongoengine calls (`Pet.objects`, `.get`, `.save()`, `.delete()`, `Pet.DoesNotExist`) are replaced by lookup, update and removal on the map. `Pet(**args).save()` in PUT is taken to replace the document with that id.
- `Petstore.PetStore.Put`: the source builds the new record from the raw text `args['id']` (app/views.py:47). The model files it with `id` set to `int(args['id'])`, so "every pet is filed under its own id" rests on the `Pet` document class converting that text to the same number; that class is not part of this model.
- `Petstore.WithStatus`: queries return documents in `order`, taken to be insertion order; the database's real ordering is not modelled.
- `Util._isValidStatus`, `Util._isValidId` and Python's `int()` are uninterpreted: the `Utils` module is not part of this model. No particular status is assumed valid.
- `Util._formatPetToJson` is taken as the identity, so the second loop of `PetStatusAPI.get` (app/views.py:67-70), which only formats each pet, is not modelled separately.
- The JSON response shapes and the texts of the `app.config` messages are presentation only. Messages are opaque constructors. The upload response keeps only its content type and file name.
- Writing the uploaded bytes (`FileStorage.save`), `os.path.join` and `app.instance_path` are file-system I/O. The images directory is an opaque prefix string, `os.path.isfile(path + name)` is membership of `path + name` in `files`, and saving adds that path to `files`.
- `Petstore.PetStore.SaveFile`: the only write failure modelled is the one the input decides, an empty chosen name, whose target `path + ""` is the directory itself. Other failures of `FileStorage.save` (permissions, a full disk, a missing directory) are taken not to happen.
- `Petstore.PetStore.UploadImage`: the uncaught exception of a failed save is modelled as a 500 response with no body detail; Flask's error page is not modelled.
- Concurrency between requests (two uploads racing for one name) is not modelled; each handler runs atomically.
