/**
 The content-addressed repository: data is stored under its hash in chunks, and a commit is
 the list of the hashes of its chunks. The file system is a map from hashes to contents;
 hashing and the encoding of commits are parameters.
 */
module Storage {
  import opened Words

  type Hash = seq<byte>
  type Files = map<Hash, seq<byte>>

  const CHUNK_SIZE: nat := 4096

  datatype StorageError =
    | NotFound(hash: Hash)
    | ChunkNotFound(hash: Hash)
    | CommitSerialization
    | InvalidRepo
    | CopyFailed(hash: Hash)

  datatype Result<T> = Ok(value: T) | Err(error: StorageError)

  /** How data is hashed and how lists of hashes are encoded. */
  datatype Codec = Codec(hash: seq<byte> -> Hash, encode: seq<Hash> -> seq<byte>,
                         decode: seq<byte> -> Option<seq<Hash>>)

  ghost predicate Faithful(c: Codec) {
    && (forall a, b :: c.hash(a) == c.hash(b) ==> a == b)
    && (forall l :: c.decode(c.encode(l)) == Some(l))
  }

  // ----- chunks -----

  /** The contents of the files with these hashes, one after the other. */
  function Joined(files: Files, hashes: seq<Hash>): seq<byte>
    requires Present(files, hashes)
  {
    if hashes == [] then [] else Joined(files, hashes[..|hashes| - 1]) + files[hashes[|hashes| - 1]]
  }

  predicate Present(files: Files, hashes: seq<Hash>) { forall i :: 0 <= i < |hashes| ==> hashes[i] in files }

  /** All chunks are of full size except perhaps the last, which is not empty. */
  ghost predicate Sized(files: Files, hashes: seq<Hash>)
    requires Present(files, hashes)
  {
    forall i :: 0 <= i < |hashes| ==>
                  0 < |files[hashes[i]]| <= CHUNK_SIZE && (i < |hashes| - 1 ==> |files[hashes[i]]| == CHUNK_SIZE)
  }

  ghost predicate Full(files: Files, hashes: seq<Hash>)
    requires Present(files, hashes)
  {
    forall i :: 0 <= i < |hashes| ==> |files[hashes[i]]| == CHUNK_SIZE
  }

  /** The only files added are those with these hashes. */
  ghost predicate OnlyAdded(files: Files, files': Files, hashes: seq<Hash>) {
    forall h :: h in files' ==> h in files || h in hashes
  }

  /** The first of the files that is missing. */
  ghost predicate FirstMissing(files: Files, hashes: seq<Hash>, h: Hash) {
    exists i :: 0 <= i < |hashes| && hashes[i] == h && h !in files && Present(files, hashes[..i])
  }

  // ----- what a repository holds -----

  /** Every file is stored under the hash of its contents. */
  ghost predicate Addressed(c: Codec, files: Files) { forall h :: h in files ==> c.hash(files[h]) == h }

  /** Checking out the commit gives the bytes. */
  ghost predicate Restores(c: Codec, files: Files, id: Hash, bytes: seq<byte>) {
    && id in files && c.decode(files[id]).Some?
    && Present(files, c.decode(files[id]).value) && Joined(files, c.decode(files[id]).value) == bytes
  }

  ghost predicate Extends(files: Files, files': Files) {
    forall h :: h in files ==> h in files' && files'[h] == files[h]
  }

  lemma {:induction false} JoinedStays(files: Files, files': Files, hashes: seq<Hash>)
    requires Present(files, hashes) && Present(files', hashes)
    requires forall i :: 0 <= i < |hashes| ==> files'[hashes[i]] == files[hashes[i]]
    ensures Joined(files', hashes) == Joined(files, hashes)
    decreases |hashes|
  {
    if hashes != [] { JoinedStays(files, files', hashes[..|hashes| - 1]); }
  }

  lemma RestoresStays(c: Codec, files: Files, files': Files, id: Hash, bytes: seq<byte>)
    requires Restores(c, files, id, bytes) && Extends(files, files')
    ensures Restores(c, files', id, bytes)
  {
    JoinedStays(files, files', c.decode(files[id]).value);
  }

  /** The bytes so far are stored in chunks, of full size if there are more to come, and nothing else was added. */
  ghost predicate StoredSoFar(files: Files, files': Files, hashes: seq<Hash>, done: seq<byte>, more: bool) {
    && Present(files', hashes) && Joined(files', hashes) == done
    && Sized(files', hashes) && (more ==> Full(files', hashes))
    && Extends(files, files') && OnlyAdded(files, files', hashes)
  }

  lemma StoredNone(files: Files, more: bool)
    ensures StoredSoFar(files, files, [], [], more)
  {
  }

  lemma StoredMeans(files: Files, files': Files, hashes: seq<Hash>, done: seq<byte>, more: bool)
    requires StoredSoFar(files, files', hashes, done, more)
    ensures Present(files', hashes) && Joined(files', hashes) == done && Sized(files', hashes)
    ensures Extends(files, files') && OnlyAdded(files, files', hashes)
  {
  }

  lemma StoredLess(files: Files, files': Files, hashes: seq<Hash>, done: seq<byte>, more: bool, less: bool)
    requires StoredSoFar(files, files', hashes, done, more) && (less ==> more)
    ensures StoredSoFar(files, files', hashes, done, less)
  {
  }

  lemma ChunkAdded(files: Files, files1: Files, files2: Files, hashes: seq<Hash>, done: seq<byte>, h: Hash,
                   data: seq<byte>)
    requires StoredSoFar(files, files1, hashes, done, true) && files2 == files1[h := data] && Extends(files1, files2)
    requires 0 < |data| <= CHUNK_SIZE
    ensures StoredSoFar(files, files2, hashes + [h], done + data, |data| == CHUNK_SIZE)
  {
    hide Joined, Sized, Full, Extends, OnlyAdded;
    JoinedOne(files1, files2, hashes, h);
    SizedOne(files1, files2, hashes, h);
    AddedOne(files, files1, files2, hashes, h, data);
  }

  lemma JoinedOne(files: Files, files': Files, hashes: seq<Hash>, h: Hash)
    requires Present(files, hashes) && Extends(files, files') && h in files'
    ensures Present(files', hashes + [h]) && Joined(files', hashes + [h]) == Joined(files, hashes) + files'[h]
  {
    JoinedStays(files, files', hashes);
    assert (hashes + [h])[..|hashes|] == hashes;
  }

  lemma SizedOne(files: Files, files': Files, hashes: seq<Hash>, h: Hash)
    requires Present(files, hashes) && Extends(files, files') && h in files' && Full(files, hashes)
    requires Present(files', hashes + [h]) && 0 < |files'[h]| <= CHUNK_SIZE
    ensures Sized(files', hashes + [h]) && (|files'[h]| == CHUNK_SIZE ==> Full(files', hashes + [h]))
  {
    var l := hashes + [h];
    forall i | 0 <= i < |l| ensures |files'[l[i]]| == if i < |hashes| then CHUNK_SIZE else |files'[h]| {
      if i < |hashes| { assert l[i] == hashes[i] && hashes[i] in files; }
    }
  }

  lemma AddedOne(files: Files, files1: Files, files2: Files, hashes: seq<Hash>, h: Hash, data: seq<byte>)
    requires Extends(files, files1) && OnlyAdded(files, files1, hashes)
    requires files2 == files1[h := data] && Extends(files1, files2)
    ensures Extends(files, files2) && OnlyAdded(files, files2, hashes + [h])
  {
  }

  // ----- the repository -----

  class Repo {
    const codec: Codec
    var files: Files

    /** Everything committed so far, by commit id. */
    ghost var commits: map<Hash, seq<byte>>

    constructor (codec: Codec)
      requires Faithful(codec)
      ensures Valid() && files == map[] && commits == map[] && this.codec == codec
    {
      this.codec := codec;
      files, commits := map[], map[];
    }

    ghost predicate Valid()
      reads this
    {
      && Faithful(codec) && Addressed(codec, files)
      && forall id :: id in commits ==> Restores(codec, files, id, commits[id])
    }

    /** Store data under its hash, unless there is a file with that name. */
    method Store(data: seq<byte>) returns (h: Hash)
      requires Faithful(codec) && Addressed(codec, files)
      modifies this`files
      ensures Addressed(codec, files) && Extends(old(files), files)
      ensures h == codec.hash(data) && files == old(files)[h := data]
    {
      h := codec.hash(data);
      if h !in files { files := files[h := data]; }
    }

    /** Store bytes in chunks. */
    method StoreChunks(bytes: seq<byte>) returns (hashes: seq<Hash>)
      requires Faithful(codec) && Addressed(codec, files)
      modifies this`files
      ensures Addressed(codec, files) && Extends(old(files), files)
      ensures Present(files, hashes) && Joined(files, hashes) == bytes
      ensures Sized(files, hashes) && OnlyAdded(old(files), files, hashes)
    {
      hide StoredSoFar, Faithful;
      hashes := [];
      var rest := bytes;
      ghost var done: seq<byte> := [];
      StoredNone(files, rest != []);
      while rest != []
        invariant Addressed(codec, files)
        invariant StoredSoFar(old(files), files, hashes, done, rest != []) && done + rest == bytes
        decreases |rest|
      {
        var n := if |rest| <= CHUNK_SIZE then |rest| else CHUNK_SIZE;
        ghost var before := files;
        var h := Store(rest[..n]);
        ChunkAdded(old(files), before, files, hashes, done, h, rest[..n]);
        StoredLess(old(files), files, hashes + [h], done + rest[..n], n == CHUNK_SIZE, rest[n..] != []);
        assert done + rest == (done + rest[..n]) + rest[n..];
        hashes, done, rest := hashes + [h], done + rest[..n], rest[n..];
      }
      StoredMeans(old(files), files, hashes, done, false);
      assert done + [] == done;
    }

    /** Commit bytes and return the commit id. */
    method Commit(bytes: seq<byte>) returns (id: Hash)
      requires Valid()
      modifies this
      ensures Valid() && commits == old(commits)[id := bytes]
      ensures id in old(commits) ==> old(commits)[id] == bytes
      ensures Extends(old(files), files)
      ensures exists hashes :: id == codec.hash(codec.encode(hashes)) && OnlyAdded(old(files), files, hashes + [id])
    {
      var hashes := StoreChunks(bytes);
      ghost var before := files;
      id := Store(codec.encode(hashes));
      JoinedStays(before, files, hashes);
      assert Restores(codec, files, id, bytes);
      forall i | i in old(commits) ensures Restores(codec, files, i, old(commits)[i]) {
        RestoresStays(codec, old(files), files, i, old(commits)[i]);
      }
      assert id in old(commits) ==> Restores(codec, files, id, old(commits)[id]);
      commits := commits[id := bytes];
    }

    /** The bytes committed under an id, if there is such a commit. */
    method Checkout(id: Hash) returns (r: Result<seq<byte>>)
      requires Valid()
      ensures id in commits ==> r == Ok(commits[id])
      ensures id !in files ==> r == Err(NotFound(id))
      ensures id in files && codec.decode(files[id]) == None ==> r == Err(CommitSerialization)
      ensures id in files && codec.decode(files[id]).Some? ==>
                if Present(files, codec.decode(files[id]).value) then r.Ok? && Restores(codec, files, id, r.value)
                else && r.Err? && r.error.ChunkNotFound?
                     && FirstMissing(files, codec.decode(files[id]).value, r.error.hash)
    {
      if id !in files { return Err(NotFound(id)); }
      var commit := codec.decode(files[id]);
      if commit == None { return Err(CommitSerialization); }
      var bytes: seq<byte> := [];
      var i := 0;
      while i < |commit.value|
        invariant 0 <= i <= |commit.value| && Present(files, commit.value[..i])
                  && bytes == Joined(files, commit.value[..i])
      {
        if commit.value[i] !in files { return Err(ChunkNotFound(commit.value[i])); }
        assert commit.value[..i + 1][..i] == commit.value[..i];
        bytes := bytes + files[commit.value[i]];
        i := i + 1;
      }
      assert commit.value[..i] == commit.value;
      r := Ok(bytes);
    }

    /** Copy what a commit needs to an empty directory. */
    method ExportSnapshot(id: Hash, target: Files) returns (r: Result<Files>)
      requires Valid()
      ensures target != map[] ==> r == Err(InvalidRepo)
      ensures target == map[] && id in commits ==> r.Ok?
      ensures target == map[] && id !in files ==> r == Err(NotFound(id))
      ensures target == map[] && id in files && codec.decode(files[id]) == None ==> r == Err(CommitSerialization)
      ensures target == map[] && id in files && codec.decode(files[id]).Some? ==>
                if Present(files, codec.decode(files[id]).value) then r.Ok?
                else r.Err? && r.error.CopyFailed? && FirstMissing(files, codec.decode(files[id]).value, r.error.hash)
      ensures r.Ok? ==>
                && Addressed(codec, r.value) && id in files && codec.decode(files[id]).Some?
                && (forall h :: h in r.value <==> h == id || h in codec.decode(files[id]).value)
                && (id in commits ==> Restores(codec, r.value, id, commits[id]))
    {
      hide Faithful, Joined;
      if target != map[] { return Err(InvalidRepo); }
      if id !in files { return Err(NotFound(id)); }
      var commit := codec.decode(files[id]);
      if commit == None { return Err(CommitSerialization); }
      var copied: Files := map[];
      var i := 0;
      while i < |commit.value|
        invariant 0 <= i <= |commit.value| && Extends(copied, files)
        invariant forall h :: h in copied <==> h in commit.value[..i]
        invariant Present(files, commit.value[..i])
      {
        var h := commit.value[i];
        if h !in files { return Err(CopyFailed(h)); }
        assert commit.value[..i + 1] == commit.value[..i] + [h];
        copied := copied[h := files[h]];
        i := i + 1;
      }
      assert commit.value[..i] == commit.value;
      copied := copied[id := files[id]];
      if id in commits { JoinedStays(files, copied, commit.value); }
      r := Ok(copied);
    }
  }
}
