/**
 * The pet resources of the REST API: the pet record, the document store
 * (pets keyed by id, plus the order in which the store returns documents),
 * the images directory, and the decision logic of each request handler.
 *
 * Responses carry an HTTP status code and an abstract body: the configured
 * message strings are opaque constants (`Message`) and a pet is returned as
 * the record itself, since its JSON formatting is not part of this model.
 */
module Petstore {

  import opened Wrappers
  import PetImage

  /** A JSON object passed through untouched (`category` and each tag). */
  type Dict = map<string, string>

  datatype Pet = Pet(
    id: int,
    category: Dict,
    name: string,
    photoUrls: seq<string>,
    tags: seq<Dict>,
    status: string)

  /** The JSON body of PUT /pet after request parsing; every field is required, `id` arrives as text. */
  datatype PetArgs = PetArgs(
    id: string,
    category: Dict,
    name: string,
    photoUrls: seq<string>,
    tags: seq<Dict>,
    status: string)

  /** The configured messages, kept opaque. */
  datatype Message =
    | InvalidStatus
    | InvalidIdError
    | NotFoundError
    | InvalidApiKey
    | DeleteSuccess
    | InvalidImageFile

  datatype Body =
    | Msg(message: Message)
    | PetBody(pet: Pet)
    | PetList(pets: seq<Pet>)
    | Uploaded(contentType: string, fileName: string)
      /** An exception no handler catches; Flask answers it with status 500. */
    | ServerError

  datatype Response = Response(code: int, body: Body)

  /** The configuration the handlers consult: the API key, the link prefix of stored images and the images directory. */
  datatype Config = Config(apiKey: string, imagesLink: string, imagesDir: string)

  /**
   * The validators of the `Utils` module, left uninterpreted: which statuses
   * are valid, and how a path segment parses as an id (`None` for any falsy
   * result). `pyInt` is Python's `int()` on a string, `None` where it raises.
   */
  datatype Util = Util(
    isValidStatus: string -> bool,
    isValidId: string -> Option<int>,
    pyInt: string -> Option<int>)

  /** `id = Util._isValidId(id); if not id: ...` — a parsed 0 is falsy too. */
  function CheckedId(util: Util, raw: string): (id: Option<int>)
    ensures id.Some? <==> util.isValidId(raw).Some? && util.isValidId(raw).value != 0
    ensures id.Some? ==> id == util.isValidId(raw)
  {
    match util.isValidId(raw)
    case Some(n) => if n == 0 then None else Some(n)
    case None => None
  }

  // ---------------------------------------------------------------------
  // The store

  ghost predicate Distinct(s: seq<int>)
  {
    forall i, j :: 0 <= i < j < |s| ==> s[i] != s[j]
  }

  /** `p` is one of the stored documents. */
  ghost predicate Stored(pets: map<int, Pet>, p: Pet)
  {
    exists id :: id in pets && pets[id] == p
  }

  /** Every pet is filed under its own id, and `order` lists each stored id exactly once. */
  ghost predicate StoreInvariant(pets: map<int, Pet>, order: seq<int>)
  {
    && (forall id :: id in pets ==> pets[id].id == id)
    && (forall id :: id in pets <==> id in order)
    && Distinct(order)
  }

  /** `order` with `x` taken out, everything else in place. */
  function Without(s: seq<int>, x: int): (r: seq<int>)
    ensures forall y :: y in r <==> y in s && y != x
  {
    if s == [] then []
    else if s[0] == x then Without(s[1..], x)
    else [s[0]] + Without(s[1..], x)
  }

  /** Taking an id out keeps the order free of repetitions. */
  lemma {:induction false} WithoutDistinct(s: seq<int>, x: int)
    requires Distinct(s)
    ensures Distinct(Without(s, x))
  {
    if s != [] {
      assert Distinct(s[1..]) by {
        forall i, j | 0 <= i < j < |s[1..]| ensures s[1..][i] != s[1..][j] {
          assert s[1..][i] == s[i + 1] && s[1..][j] == s[j + 1];
        }
      }
      WithoutDistinct(s[1..], x);
      if s[0] != x {
        var rest := Without(s[1..], x);
        assert s[0] !in s[1..] by {
          forall j | 0 <= j < |s[1..]| ensures s[1..][j] != s[0] {
            assert s[1..][j] == s[j + 1];
          }
        }
        assert s[0] !in rest;
        var r := [s[0]] + rest;
        forall i, j | 0 <= i < j < |r| ensures r[i] != r[j] {
          if i == 0 {
            assert r[j] == rest[j - 1];
          } else {
            assert r[i] == rest[i - 1] && r[j] == rest[j - 1];
          }
        }
      }
    }
  }

  /** `Pet.objects(status = stat)`: the stored pets with that status, in store order. */
  function WithStatus(pets: map<int, Pet>, ids: seq<int>, stat: string): (r: seq<Pet>)
    ensures |r| <= |ids|
    ensures forall i :: 0 <= i < |r| ==> r[i].status == stat
  {
    if ids == [] then []
    else
      (if ids[0] in pets && pets[ids[0]].status == stat then [pets[ids[0]]] else [])
      + WithStatus(pets, ids[1..], stat)
  }

  /** The pets of each requested status, concatenated in request order. */
  function AllWithStatus(pets: map<int, Pet>, ids: seq<int>, statuses: seq<string>): (r: seq<Pet>)
    ensures forall i :: 0 <= i < |r| ==> r[i].status in statuses
  {
    if statuses == [] then []
    else WithStatus(pets, ids, statuses[0]) + AllWithStatus(pets, ids, statuses[1..])
  }

  /** A status query returns exactly the stored pets with that status. */
  lemma {:induction false} WithStatusMembers(pets: map<int, Pet>, ids: seq<int>, stat: string, p: Pet)
    ensures p in WithStatus(pets, ids, stat) <==>
      p.status == stat && exists id :: id in ids && id in pets && pets[id] == p
  {
    if ids != [] {
      WithStatusMembers(pets, ids[1..], stat, p);
      assert forall id :: id in ids <==> id == ids[0] || id in ids[1..];
    }
  }

  /** Over a well-formed store, a status query returns a stored pet exactly when its status matches. */
  lemma QueryMatchesStore(pets: map<int, Pet>, order: seq<int>, stat: string, p: Pet)
    requires StoreInvariant(pets, order)
    ensures p in WithStatus(pets, order, stat) <==> Stored(pets, p) && p.status == stat
  {
    WithStatusMembers(pets, order, stat, p);
  }

  /** The response list of one request is the concatenation of the lists of its parts. */
  lemma {:induction false} AllWithStatusAppend(pets: map<int, Pet>, ids: seq<int>, a: seq<string>, b: seq<string>)
    ensures AllWithStatus(pets, ids, a + b) == AllWithStatus(pets, ids, a) + AllWithStatus(pets, ids, b)
  {
    if a == [] {
      assert a + b == b;
    } else {
      assert (a + b)[0] == a[0];
      assert (a + b)[1..] == a[1..] + b;
      AllWithStatusAppend(pets, ids, a[1..], b);
    }
  }

  /** A pet is listed exactly when it is stored and its status was requested. */
  lemma {:induction false} AllWithStatusMembers(
    pets: map<int, Pet>, order: seq<int>, statuses: seq<string>, p: Pet)
    requires StoreInvariant(pets, order)
    ensures p in AllWithStatus(pets, order, statuses) <==> Stored(pets, p) && p.status in statuses
  {
    if statuses != [] {
      QueryMatchesStore(pets, order, statuses[0], p);
      AllWithStatusMembers(pets, order, statuses[1..], p);
      assert forall t :: t in statuses <==> t == statuses[0] || t in statuses[1..];
    }
  }

  /** Requesting a status twice lists its pets twice. */
  lemma RepeatedStatusRepeats(pets: map<int, Pet>, ids: seq<int>, stat: string)
    ensures AllWithStatus(pets, ids, [stat, stat]) == WithStatus(pets, ids, stat) + WithStatus(pets, ids, stat)
  {
    assert [stat, stat][1..] == [stat];
    assert [stat][1..] == [];
    assert AllWithStatus(pets, ids, [stat]) == WithStatus(pets, ids, stat) + [];
    assert WithStatus(pets, ids, stat) + [] == WithStatus(pets, ids, stat);
  }

  /**
   * `fileName` is what the rename loop picks for `uploadName` in directory
   * `dir`: its path is free, it is the candidate after some `k` steps, and every
   * earlier candidate was taken.
   */
  ghost predicate Saved(dir: string, existing: set<string>, uploadName: string, fileName: string)
  {
    && dir + fileName !in existing
    && exists k: nat ::
      (&& fileName == PetImage.Renamed(uploadName, k)
       && forall j :: 0 <= j < k ==> dir + PetImage.Renamed(uploadName, j) in existing)
  }

  ghost predicate AllValid(util: Util, statuses: seq<string>)
  {
    forall i :: 0 <= i < |statuses| ==> util.isValidStatus(statuses[i])
  }

  // ---------------------------------------------------------------------
  // The handlers

  class PetStore {
    /** The documents, keyed by pet id. */
    var pets: map<int, Pet>
    /** The order in which queries return documents: insertion order. */
    var order: seq<int>
    /** Full paths of the files in the images directory. */
    var files: set<string>

    const config: Config
    const util: Util

    ghost predicate Valid()
      reads this
    {
      StoreInvariant(pets, order)
    }

    /** A store opened over existing documents (in their query order) and an existing images directory. */
    constructor (config: Config, util: Util, pets: map<int, Pet>, order: seq<int>, files: set<string>)
      requires StoreInvariant(pets, order)
      ensures Valid()
      ensures this.config == config && this.util == util
      ensures this.pets == pets && this.order == order && this.files == files
    {
      this.config, this.util := config, util;
      this.pets, this.order, this.files := pets, order, files;
    }

    /** PUT /pet: status (405), then `int(id)` (400), then existence (404); on success the record is replaced from the request. */
    method Put(args: PetArgs) returns (resp: Response)
      requires Valid()
      modifies this
      ensures Valid()
      ensures order == old(order) && files == old(files)
      ensures !util.isValidStatus(args.status) ==>
        resp == Response(405, Msg(InvalidStatus)) && pets == old(pets)
      ensures util.isValidStatus(args.status) && util.pyInt(args.id).None? ==>
        resp == Response(400, Msg(InvalidIdError)) && pets == old(pets)
      ensures util.isValidStatus(args.status) && util.pyInt(args.id).Some? ==>
        var id := util.pyInt(args.id).value;
        var pet := Pet(id, args.category, args.name, args.photoUrls, args.tags, args.status);
        if id in old(pets) then resp == Response(200, PetBody(pet)) && pets == old(pets)[id := pet]
        else resp == Response(404, Msg(NotFoundError)) && pets == old(pets)
    {
      if !util.isValidStatus(args.status) {
        return Response(405, Msg(InvalidStatus));
      }
      var parsed := util.pyInt(args.id);
      if parsed.None? {
        return Response(400, Msg(InvalidIdError));
      }
      var id := parsed.value;
      if id !in pets {
        return Response(404, Msg(NotFoundError));
      }
      var pet := Pet(id, args.category, args.name, args.photoUrls, args.tags, args.status);
      pets := pets[id := pet];
      resp := Response(200, PetBody(pet));
    }

    /** GET /pet/findByStatus: 400 if any requested status is invalid, else the matching pets of each status in request order. */
    method FindByStatus(statuses: seq<string>) returns (resp: Response)
      requires Valid()
      ensures !AllValid(util, statuses) ==> resp == Response(400, Msg(InvalidStatus))
      ensures AllValid(util, statuses) ==> resp == Response(200, PetList(AllWithStatus(pets, order, statuses)))
    {
      var allPets: seq<Pet> := [];
      for i := 0 to |statuses|
        invariant AllValid(util, statuses[..i])
        invariant allPets == AllWithStatus(pets, order, statuses[..i])
      {
        var stat := statuses[i];
        if !util.isValidStatus(stat) {
          return Response(400, Msg(InvalidStatus));
        }
        AllWithStatusAppend(pets, order, statuses[..i], [stat]);
        assert statuses[..i + 1] == statuses[..i] + [stat];
        allPets := allPets + WithStatus(pets, order, stat);
      }
      assert statuses[..|statuses|] == statuses;
      resp := Response(200, PetList(allPets));
    }

    /** GET /pet/{id}: invalid id (400), unknown id (404), else the pet. */
    method Get(rawId: string) returns (resp: Response)
      requires Valid()
      ensures CheckedId(util, rawId).None? ==> resp == Response(400, Msg(InvalidIdError))
      ensures CheckedId(util, rawId).Some? ==>
        var id := CheckedId(util, rawId).value;
        if id in pets then resp == Response(200, PetBody(pets[id]))
        else resp == Response(404, Msg(NotFoundError))
    {
      var id := CheckedId(util, rawId);
      if id.None? {
        return Response(400, Msg(InvalidIdError));
      }
      if id.value !in pets {
        return Response(404, Msg(NotFoundError));
      }
      resp := Response(200, PetBody(pets[id.value]));
    }

    /** POST /pet/{id} (form update): invalid id (400), invalid status (405), unknown id (404); else only name and status change. */
    method UpdateWithForm(rawId: string, name: string, status: string) returns (resp: Response)
      requires Valid()
      modifies this
      ensures Valid()
      ensures order == old(order) && files == old(files)
      ensures CheckedId(util, rawId).None? ==>
        resp == Response(400, Msg(InvalidIdError)) && pets == old(pets)
      ensures CheckedId(util, rawId).Some? && !util.isValidStatus(status) ==>
        resp == Response(405, Msg(InvalidStatus)) && pets == old(pets)
      ensures CheckedId(util, rawId).Some? && util.isValidStatus(status) ==>
        var id := CheckedId(util, rawId).value;
        if id in old(pets) then
          var pet := old(pets)[id].(name := name, status := status);
          resp == Response(200, PetBody(pet)) && pets == old(pets)[id := pet]
        else resp == Response(404, Msg(NotFoundError)) && pets == old(pets)
    {
      var id := CheckedId(util, rawId);
      if id.None? {
        return Response(400, Msg(InvalidIdError));
      }
      if !util.isValidStatus(status) {
        return Response(405, Msg(InvalidStatus));
      }
      if id.value !in pets {
        return Response(404, Msg(NotFoundError));
      }
      var pet := pets[id.value].(name := name, status := status);
      pets := pets[id.value := pet];
      resp := Response(200, PetBody(pet));
    }

    /** DELETE /pet/{id}: wrong or missing api_key header (400), invalid id (400), unknown id (404); else only that pet goes. */
    method Delete(apiKey: Option<string>, rawId: string) returns (resp: Response)
      requires Valid()
      modifies this
      ensures Valid()
      ensures files == old(files)
      ensures apiKey != Some(config.apiKey) ==>
        resp == Response(400, Msg(InvalidApiKey)) && pets == old(pets) && order == old(order)
      ensures apiKey == Some(config.apiKey) && CheckedId(util, rawId).None? ==>
        resp == Response(400, Msg(InvalidIdError)) && pets == old(pets) && order == old(order)
      ensures apiKey == Some(config.apiKey) && CheckedId(util, rawId).Some? ==>
        var id := CheckedId(util, rawId).value;
        if id in old(pets) then
          resp == Response(200, Msg(DeleteSuccess))
          && pets == old(pets) - {id} && order == Without(old(order), id)
        else resp == Response(404, Msg(NotFoundError)) && pets == old(pets) && order == old(order)
    {
      if apiKey != Some(config.apiKey) {
        return Response(400, Msg(InvalidApiKey));
      }
      var id := CheckedId(util, rawId);
      if id.None? {
        return Response(400, Msg(InvalidIdError));
      }
      if id.value !in pets {
        return Response(404, Msg(NotFoundError));
      }
      pets := pets - {id.value};
      WithoutDistinct(order, id.value);
      order := Without(order, id.value);
      resp := Response(200, Msg(DeleteSuccess));
    }

    /** POST /pet/{id}/uploadImage: invalid id (400), unknown id (404), not an image (400), a failed save (500); else the file is saved and linked. */
    method UploadImage(rawId: string, contentType: string, uploadName: string) returns (resp: Response)
      requires Valid()
      modifies this
      ensures Valid()
      ensures order == old(order)
      ensures var id := CheckedId(util, rawId);
        if id.None? then
          resp == Response(400, Msg(InvalidIdError)) && pets == old(pets) && files == old(files)
        else if id.value !in old(pets) then
          resp == Response(404, Msg(NotFoundError)) && pets == old(pets) && files == old(files)
        else if !PetImage.IsValidImage(contentType) then
          resp == Response(400, Msg(InvalidImageFile)) && pets == old(pets) && files == old(files)
        else if uploadName == "" && config.imagesDir !in old(files) then
          resp == Response(500, ServerError) && pets == old(pets) && files == old(files)
        else
          var pet := old(pets)[id.value];
          && resp.code == 200 && resp.body.Uploaded? && resp.body.contentType == contentType
          && resp.body.fileName != ""
          && Saved(config.imagesDir, old(files), uploadName, resp.body.fileName)
          && files == old(files) + {config.imagesDir + resp.body.fileName}
          && pets == old(pets)[id.value := pet.(photoUrls := pet.photoUrls + [config.imagesLink + resp.body.fileName])]
    {
      var id := CheckedId(util, rawId);
      if id.None? {
        return Response(400, Msg(InvalidIdError));
      }
      if id.value !in pets {
        return Response(404, Msg(NotFoundError));
      }
      if !PetImage.IsValidImage(contentType) {
        return Response(400, Msg(InvalidImageFile));
      }
      var fileName, saved := SaveFile(uploadName);
      if !saved {
        return Response(500, ServerError);
      }
      UpdateDocument(fileName, id.value);
      resp := Response(200, Uploaded(contentType, fileName));
    }

    /**
     * `_saveFile`: pick a free name in the images directory and write the file there.
     * The write fails when the chosen name is empty, since `path + ""` is the
     * directory itself; the exception then escapes and nothing is written.
     */
    method SaveFile(uploadName: string) returns (fileName: string, saved: bool)
      modifies this`files
      ensures Saved(config.imagesDir, old(files), uploadName, fileName)
      ensures saved <==> fileName != ""
      ensures !saved <==> uploadName == "" && config.imagesDir !in old(files)
      ensures files == if saved then old(files) + {config.imagesDir + fileName} else old(files)
    {
      ghost var k;
      fileName, k := PetImage.GetUniqueFileName(files, config.imagesDir, uploadName);
      PetImage.RenamedEmpty(uploadName, k);
      assert config.imagesDir + "" == config.imagesDir;
      saved := fileName != "";
      if saved {
        files := files + {config.imagesDir + fileName};
      }
    }

    /** `_updateDocument`: append the image link to the pet's photo URLs; nothing else changes. */
    method UpdateDocument(fileName: string, id: int)
      requires Valid() && id in pets
      modifies this`pets
      ensures Valid()
      ensures pets == old(pets)[id := old(pets)[id].(photoUrls := old(pets)[id].photoUrls + [config.imagesLink + fileName])]
    {
      var pet := pets[id];
      pets := pets[id := pet.(photoUrls := pet.photoUrls + [config.imagesLink + fileName])];
    }
  }
}
