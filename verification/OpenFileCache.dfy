/** The file handle that remembers the extents of one open file and of one running upload. */
module OpenFileCache {
  import opened Common
  import opened BlockDevice
  import opened Extents

  const MAX_FILE_EXTENTS: nat := 128

  datatype Key = Key(dir: string, name: string)

  datatype Error =
    | NotFound
    | UnexpectedEof
    | BadOffset
    | UploadInProgress
    | NoUploadInProgress
    | UploadNameMismatch
    | TooFragmented
    | FatError
    | DeviceError

  datatype ActiveFile = ActiveFile(key: Key, size: nat, extents: seq<Extent>)

  type FileTable = map<Key, seq<Extent>>

  predicate Separate(x: seq<Extent>, y: seq<Extent>) {
    forall i, j :: 0 <= i < |x| && 0 <= j < |y| ==> DisjointExtents(x[i], y[j])
  }

  /** The files of the card occupy disjoint places inside it. */
  predicate Sound(files: FileTable, base: nat, limit: nat) {
    && (forall k :: k in files ==> Within(files[k], base, limit) && PairwiseDisjoint(files[k]))
    && (forall k, m :: k in files && m in files && k != m ==> Separate(files[k], files[m]))
  }

  /** A place the file system may give to file `key`. */
  predicate Placeable(files: FileTable, base: nat, limit: nat, key: Key, chain: seq<Extent>) {
    && Within(chain, base, limit)
    && PairwiseDisjoint(chain)
    && forall k :: k in files && k != key ==> Separate(files[k], chain) && Separate(chain, files[k])
  }

  /** The remembered extents and size are those a fresh lookup would find. */
  predicate Agrees(files: FileTable, active: Option<ActiveFile>) {
    active.Some? ==>
      && active.value.key in files
      && files[active.value.key] == active.value.extents
      && active.value.size == FileLength(active.value.extents)
  }

  /** Remembered extents lie inside the card, whatever has become of the file since. */
  predicate Remembered(active: Option<ActiveFile>, base: nat, limit: nat) {
    active.Some? ==>
      && |active.value.extents| <= MAX_FILE_EXTENTS
      && Within(active.value.extents, base, limit)
      && PairwiseDisjoint(active.value.extents)
      && active.value.size == FileLength(active.value.extents)
  }

  lemma PlacedIsSound(files: FileTable, base: nat, limit: nat, key: Key, chain: seq<Extent>)
    requires Sound(files, base, limit) && Placeable(files, base, limit, key, chain)
    ensures Sound(files[key := chain], base, limit) && Within(chain, base, limit) && PairwiseDisjoint(chain)
  {
  }

  /** Writing a whole file where it was placed changes that file and no other. */
  lemma OneFileWritten(before: Bytes, base: nat, others: FileTable, key: Key, chain: seq<Extent>, content: Bytes)
    requires Placeable(others, base, |before|, key, chain) && Sound(others, base, |before|)
    requires |content| == FileLength(chain)
    ensures var now := Patched(before, base, chain, 0, content, |content|);
            && FileBytes(now, base, chain) == content
            && forall k :: k in others && k != key ==>
                FileBytes(now, base, others[k]) == FileBytes(before, base, others[k])
  {
    hide Patched;
    PatchedIsSplice(before, base, chain, 0, content, |content|);
    assert content[..|content|] == content;
    forall k | k in others && k != key
      ensures FileBytes(Patched(before, base, chain, 0, content, |content|), base, others[k]) ==
              FileBytes(before, base, others[k])
    {
      OtherFileUnchanged(before, base, chain, others[k], 0, content, |content|);
    }
  }

  /** A write that failed midway shows in no file that has no block in common with the one written. */
  lemma OthersTouched(
    before: Bytes, now: Bytes, base: nat, others: FileTable, key: Key, chain: seq<Extent>, offset: nat, len: nat)
    requires |before| == |now| && Sound(others, base, |before|)
    requires forall i :: 0 <= i < |before| && OutsideTouched(chain, base, offset, offset + len, i) ==>
             now[i] == before[i]
    ensures forall k :: k in others && k != key && ShareNoBlock(base, chain, others[k]) ==>
              FileBytes(now, base, others[k]) == FileBytes(before, base, others[k])
  {
    forall k | k in others && k != key && ShareNoBlock(base, chain, others[k])
      ensures FileBytes(now, base, others[k]) == FileBytes(before, base, others[k])
    {
      TouchedElsewhere(before, now, base, chain, others[k], offset, len);
    }
  }

  // ---- A storage that remembers nothing ----

  /** The files, the card, and the name and size of the running upload. */
  datatype Plain = Plain(files: FileTable, data: Bytes, upload: Option<(Key, nat)>)

  datatype Answer = Answer(bytes: Bytes, size: nat, error: Option<Error>)

  function Reply(error: Option<Error>): Answer {
    Answer([], 0, error)
  }

  datatype Call =
    | Begin(key: Key, size: nat, chain: seq<Extent>)
    | Chunk(key: Key, offset: nat, data: Bytes)
    | Commit(key: Key)
    | Abort(key: Key)
    | Change(key: Key, chain: seq<Extent>, content: Bytes)
    | Delete(key: Key)
    | Read(key: Key, offset: nat, len: nat)
    | Size(key: Key)

  predicate WellFormed(c: Call) {
    c.Change? ==> |c.content| == FileLength(c.chain)
  }

  ghost function PlainPut(p: Plain, base: nat, key: Key, chain: seq<Extent>, content: Bytes): (Plain, Option<Error>)
    requires |content| == FileLength(chain)
  {
    if !Placeable(p.files, base, |p.data|, key, chain) then (p, Some(FatError))
    else (p.(files := p.files[key := chain], data := Patched(p.data, base, chain, 0, content, |content|)), None)
  }

  function PlainRemove(p: Plain, key: Key): (Plain, Option<Error>) {
    (p.(files := p.files - {key}), if key in p.files then None else Some(NotFound))
  }

  ghost function PlainBegin(p: Plain, base: nat, key: Key, size: nat, chain: seq<Extent>): (Plain, Option<Error>) {
    if p.upload.Some? then (p, Some(UploadInProgress))
    else if size >= U32_LIMIT then (p, Some(BadOffset))
    else if FileLength(chain) != size then (p, Some(FatError))
    else
      var (q, error) := PlainPut(p, base, key, chain, seq(size, _ => 0));
      if error.Some? then (q, error)
      else if |chain| > MAX_FILE_EXTENTS then (q, Some(TooFragmented))
      else (q.(upload := Some((key, size))), None)
  }

  /** What every call of the running upload checks first. */
  function UploadFault(p: Plain, key: Key): Option<Error> {
    if p.upload.None? then Some(NoUploadInProgress)
    else if p.upload.value.0 != key then Some(UploadNameMismatch)
    else None
  }

  /** The extents are looked up afresh for every chunk. */
  ghost function PlainChunk(p: Plain, base: nat, key: Key, offset: nat, data: Bytes): (Plain, Option<Error>)
    requires Sound(p.files, base, |p.data|)
  {
    if UploadFault(p, key).Some? then (p, UploadFault(p, key))
    else if offset + |data| > p.upload.value.1 || offset + |data| >= U64_LIMIT then (p, Some(BadOffset))
    else if key !in p.files then (p, Some(NotFound))
    else if !InFile(p.files[key], offset, |data|) then
      (p.(data := Patched(p.data, base, p.files[key], offset, data, Reaching(p.files[key], offset, |data|))),
          Some(BadOffset))
    else (p.(data := Patched(p.data, base, p.files[key], offset, data, |data|)), None)
  }

  function PlainRead(p: Plain, base: nat, key: Key, offset: nat, len: nat): Answer
    requires Sound(p.files, base, |p.data|)
  {
    if key !in p.files then Reply(Some(NotFound))
    else if |p.files[key]| > MAX_FILE_EXTENTS then Reply(Some(TooFragmented))
    else if len > 0 && offset + len > FileLength(p.files[key]) then Reply(Some(UnexpectedEof))
    else Answer(if len == 0 then [] else FileBytes(p.data, base, p.files[key])[offset..offset + len], 0, None)
  }

  function PlainSize(p: Plain, key: Key): Answer {
    if key in p.files then Answer([], FileLength(p.files[key]), None) else Reply(Some(NotFound))
  }

  /** What a storage without any remembered files answers, on a card that does not fail. */
  ghost function PlainCall(p: Plain, base: nat, c: Call): (Plain, Answer)
    requires Sound(p.files, base, |p.data|) && WellFormed(c)
  {
    match c
    case Begin(key, size, chain) => var (q, error) := PlainBegin(p, base, key, size, chain); (q, Reply(error))
    case Chunk(key, offset, data) => var (q, error) := PlainChunk(p, base, key, offset, data); (q, Reply(error))
    case Commit(key) =>
      (if UploadFault(p, key).Some? then p else p.(upload := None), Reply(UploadFault(p, key)))
    case Abort(key) =>
      if UploadFault(p, key).Some? then (p, Reply(UploadFault(p, key)))
      else var (q, error) := PlainRemove(p.(upload := None), key); (q, Reply(error))
    case Change(key, chain, content) => var (q, error) := PlainPut(p, base, key, chain, content); (q, Reply(error))
    case Delete(key) => var (q, error) := PlainRemove(p, key); (q, Reply(error))
    case Read(key, offset, len) => (p, PlainRead(p, base, key, offset, len))
    case Size(key) => (p, PlainSize(p, key))
  }

  class SdStorage {
    const device: Device
    const base: nat
    var files: FileTable
    var activeUpload: Option<ActiveFile>
    var activeRead: Option<ActiveFile>

    ghost predicate Valid()
      reads this, device`data
    {
      && |device.data| <= ADDRESSABLE && |device.data| % 512 == 0
      && Sound(files, base, |device.data|)
      && Remembered(activeUpload, base, |device.data|)
      && Remembered(activeRead, base, |device.data|)
    }

    constructor (device: Device, base: nat, files: FileTable)
      requires |device.data| <= ADDRESSABLE && |device.data| % 512 == 0
      requires Sound(files, base, |device.data|)
      ensures Valid() && this.files == files && this.device == device && this.base == base
      ensures activeUpload.None? && activeRead.None?
    {
      this.device, this.base, this.files := device, base, files;
      activeUpload, activeRead := None, None;
    }

    /** The storage without what it remembers. */
    ghost function State(): Plain
      reads this, device`data
    {
      Plain(files, device.data, if activeUpload.None? then None
          else Some((activeUpload.value.key, activeUpload.value.size)))
    }

    /** What a fresh lookup reads. */
    ghost function Lookup(key: Key): Bytes
      requires Valid() && key in files
      reads this, device`data
    {
      FileBytes(device.data, base, files[key])
    }

    /** A call of the directory layer: the file is created or replaced, and ends with `content` at `chain`. */
    method PutFile(key: Key, chain: seq<Extent>, content: Bytes) returns (error: Option<Error>)
      requires Valid() && |content| == FileLength(chain)
      modifies this`files, device
      ensures Valid() && |device.data| == old(|device.data|)
      ensures files == old(files) || files == old(files)[key := chain]
      ensures error.None? ==>
                && files == old(files)[key := chain] && Lookup(key) == content
                && forall k :: k in old(files) && k != key ==> Lookup(k) == old(Lookup(k))
      ensures error == Some(FatError) ==> files == old(files) && device.data == old(device.data)
      ensures error != Some(DeviceError) ==> (State(), error) == PlainPut(old(State()), base, key, chain, content)
      ensures error == Some(DeviceError) ==> OthersKept(old(State()), base, chain, key)
      ensures device.failures >= old(device.failures)
      ensures error == Some(DeviceError) <==> device.failures > old(device.failures)
    {
      hide Patched, Sound, Placeable, FileBytes;
      if !Placeable(files, base, |device.data|, key, chain) { return Some(FatError); }
      PlacedIsSound(files, base, |device.data|, key, chain);
      ghost var before := device.data;
      ghost var others := files;
      files := files[key := chain];
      OneFileWritten(before, base, others, key, chain, content);
      if content == [] {
        NothingPatched(before, base, chain, 0, content);
        return None;
      }
      var failed := WriteExtents(device, base, chain, 0, content);
      if failed.Some? {
        OthersTouched(before, device.data, base, others, key, chain, 0, |content|);
        return Some(DeviceError);
      }
      return None;
    }

    /** Every other file that has no block in common with the extents reads as it did. */
    ghost predicate OthersKept(p: Plain, base: nat, extents: seq<Extent>, key: Key)
      requires Valid() && this.base == base && Sound(p.files, base, |p.data|)
      reads this, device`data
    {
      forall k :: k in p.files && k in files && k != key && ShareNoBlock(base, extents, p.files[k]) ==>
        Lookup(k) == FileBytes(p.data, base, p.files[k])
    }

    method RemoveFile(key: Key) returns (error: Option<Error>)
      requires Valid()
      modifies this`files
      ensures Valid() && files == old(files) - {key}
      ensures error == if key in old(files) then None else Some(NotFound)
      ensures (State(), error) == PlainRemove(old(State()), key)
      ensures error != Some(DeviceError)
    {
      error := if key in files then None else Some(NotFound);
      files := files - {key};
    }

    ghost predicate ReadAgrees()
      reads this
    {
      Agrees(files, activeRead)
    }

    ghost predicate UploadAgrees()
      reads this
    {
      Agrees(files, activeUpload)
    }

    // ---- Uploads ----

    /** Reserves the whole file, zeroed, and remembers where it lies. */
    method BeginUpload(key: Key, expectedSize: nat, chain: seq<Extent>) returns (error: Option<Error>)
      requires Valid()
      modifies this, device
      ensures Valid()
      ensures old(activeUpload).Some? ==>
                && error == Some(UploadInProgress) && files == old(files)
                && activeUpload == old(activeUpload) && activeRead == old(activeRead)
      ensures old(activeUpload).None? ==> activeRead.None? && (error.Some? ==> activeUpload.None?)
      ensures error.None? ==>
                && activeUpload == Some(ActiveFile(key, expectedSize, chain)) && UploadAgrees()
                && Lookup(key) == seq(expectedSize, _ => 0)
      ensures error != Some(DeviceError) ==>
                (State(), error) == PlainBegin(old(State()), base, key, expectedSize, chain)
      ensures error == Some(DeviceError) ==> OthersKept(old(State()), base, chain, key)
      ensures device.failures >= old(device.failures)
      ensures error == Some(DeviceError) <==> device.failures > old(device.failures)
    {
      if activeUpload.Some? { return Some(UploadInProgress); }
      activeRead := None;
      if expectedSize >= U32_LIMIT { return Some(BadOffset); }
      if FileLength(chain) != expectedSize { return Some(FatError); }
      error := PutFile(key, chain, seq(expectedSize, _ => 0));
      if error.Some? { return; }
      if |chain| > MAX_FILE_EXTENTS { return Some(TooFragmented); }
      activeUpload := Some(ActiveFile(key, expectedSize, chain));
    }

    /** Writes one chunk straight to the remembered extents. */
    method WriteUploadChunk(key: Key, offset: nat, data: Bytes) returns (error: Option<Error>)
      requires Valid()
      modifies device
      ensures Valid()
      ensures activeUpload.None? ==> error == Some(NoUploadInProgress)
      ensures activeUpload.Some? && activeUpload.value.key != key ==> error == Some(UploadNameMismatch)
      ensures activeUpload.Some? && offset + |data| > activeUpload.value.size ==> error.Some?
      ensures error.None? ==>
                activeUpload.Some? && activeUpload.value.key == key && offset + |data| <= activeUpload.value.size
      ensures error.None? && UploadAgrees() ==> Lookup(key) == Splice(old(Lookup(key)), offset, data)
      ensures error.None? && UploadAgrees() ==> forall k :: k in files && k != key ==> Lookup(k) == old(Lookup(k))
      ensures error != Some(DeviceError) && UploadAgrees() ==>
                (State(), error) == PlainChunk(old(State()), base, key, offset, data)
      ensures error == Some(DeviceError) && UploadAgrees() ==>
              OthersKept(old(State()), base, activeUpload.value.extents, key)
      ensures device.failures >= old(device.failures)
      ensures error == Some(DeviceError) <==> device.failures > old(device.failures)
    {
      if activeUpload.None? { return Some(NoUploadInProgress); }
      var upload := activeUpload.value;
      if upload.key != key { return Some(UploadNameMismatch); }
      if offset + |data| >= U64_LIMIT { return Some(BadOffset); }
      if offset + |data| > upload.size { return Some(BadOffset); }
      ghost var before := device.data;
      var failed := WriteExtents(device, base, upload.extents, offset, data);
      if failed == Some(DeviceFailed) {
        if UploadAgrees() { OthersTouched(before, device.data, base, files, key, upload.extents, offset, |data|); }
        return Some(DeviceError);
      }
      if failed.Some? {
        assert failed.value.DeviceFailed? || failed.value.BadUploadOffset?;
        return Some(BadOffset);
      }
      assert data[..|data|] == data;
      PatchedIsSplice(before, base, upload.extents, offset, data, |data|);
      forall k | UploadAgrees() && k in files && k != key
        ensures FileBytes(device.data, base, files[k]) == FileBytes(before, base, files[k])
      {
        OtherFileUnchanged(before, base, upload.extents, files[k], offset, data, |data|);
      }
      return None;
    }

    /**
     Hands the upload's extents to the read cache. The cache then agrees with the file system exactly when the
     upload still did.
     */
    method CommitUpload(key: Key) returns (error: Option<Error>)
      requires Valid()
      modifies this`activeUpload, this`activeRead
      ensures Valid()
      ensures error == if old(activeUpload).None? then Some(NoUploadInProgress)
                       else if old(activeUpload).value.key != key then Some(UploadNameMismatch) else None
      ensures error.Some? ==> activeUpload == old(activeUpload) && activeRead == old(activeRead)
      ensures error.None? ==> activeUpload.None? && activeRead == old(activeUpload)
      ensures error.None? ==> (ReadAgrees() <==> old(UploadAgrees()))
      ensures (State(), Reply(error)) == PlainCall(old(State()), base, Commit(key))
      ensures error != Some(DeviceError)
    {
      var upload := activeUpload;
      if upload.None? { return Some(NoUploadInProgress); }
      activeUpload := None;
      if upload.value.key != key {
        activeUpload := upload;
        return Some(UploadNameMismatch);
      }
      activeRead := upload;
      return None;
    }

    method AbortUpload(key: Key) returns (error: Option<Error>)
      requires Valid()
      modifies this
      ensures Valid()
      ensures error == Some(NoUploadInProgress) || error == Some(UploadNameMismatch) ==>
                files == old(files) && activeUpload == old(activeUpload) && activeRead == old(activeRead)
      ensures error.None? ==> files == old(files) - {key} && activeUpload.None? && activeRead.None?
      ensures old(ReadAgrees()) ==> ReadAgrees()
      ensures old(UploadAgrees()) ==> UploadAgrees()
      ensures (State(), Reply(error)) == PlainCall(old(State()), base, Abort(key))
      ensures error != Some(DeviceError)
    {
      var upload := activeUpload;
      if upload.None? { return Some(NoUploadInProgress); }
      activeUpload := None;
      if upload.value.key != key {
        activeUpload := upload;
        return Some(UploadNameMismatch);
      }
      activeRead := None;
      error := RemoveFile(key);
    }

    // ---- Every other change of a file ----

    /** Creation, truncation and writing: the read cache is dropped, the upload is not looked at. */
    method ChangeFile(key: Key, chain: seq<Extent>, content: Bytes) returns (error: Option<Error>)
      requires Valid() && |content| == FileLength(chain)
      modifies this`files, this`activeRead, device
      ensures Valid() && ReadAgrees() && activeRead.None?
      ensures error.None? ==> files == old(files)[key := chain] && Lookup(key) == content
      ensures old(UploadAgrees()) && !Uploading(key) ==> UploadAgrees()
      ensures old(UploadAgrees()) && error.None? ==>
                (UploadAgrees() <==> !Uploading(key) || chain == activeUpload.value.extents)
      ensures error != Some(DeviceError) ==> (State(), error) == PlainPut(old(State()), base, key, chain, content)
      ensures error == Some(DeviceError) ==> OthersKept(old(State()), base, chain, key)
      ensures device.failures >= old(device.failures)
      ensures error == Some(DeviceError) <==> device.failures > old(device.failures)
    {
      activeRead := None;
      error := PutFile(key, chain, content);
    }

    method DeleteFile(key: Key) returns (error: Option<Error>)
      requires Valid()
      modifies this`files, this`activeRead
      ensures Valid() && ReadAgrees() && activeRead.None? && files == old(files) - {key}
      ensures old(UploadAgrees()) ==> (UploadAgrees() <==> !Uploading(key))
      ensures (State(), error) == PlainRemove(old(State()), key)
      ensures error != Some(DeviceError)
    {
      activeRead := None;
      error := RemoveFile(key);
    }

    predicate Uploading(key: Key)
      reads this`activeUpload
    {
      activeUpload.Some? && activeUpload.value.key == key
    }

    // ---- Reads ----

    method EnsureReadCache(key: Key) returns (error: Option<Error>)
      requires Valid()
      modifies this`activeRead
      ensures Valid() && (old(ReadAgrees()) ==> ReadAgrees())
      ensures error.None? ==> activeRead.Some? && activeRead.value.key == key
      ensures error.Some? ==>
                || (error == Some(NotFound) && key !in files)
                || (error == Some(TooFragmented) && key in files && |files[key]| > MAX_FILE_EXTENTS)
      ensures error != Some(DeviceError)
    {
      if activeRead.Some? && activeRead.value.key == key { return None; }
      if key !in files { return Some(NotFound); }
      if |files[key]| > MAX_FILE_EXTENTS { return Some(TooFragmented); }
      activeRead := Some(ActiveFile(key, FileLength(files[key]), files[key]));
      return None;
    }

    /** A read answered from an agreeing cache is the read a fresh lookup would answer, errors included. */
    method ReadAt(key: Key, offset: nat, len: nat) returns (out: Bytes, error: Option<Error>)
      requires Valid()
      modifies this`activeRead, device`failures
      ensures Valid() && (old(ReadAgrees()) ==> ReadAgrees())
      ensures old(ReadAgrees()) && error.None? ==>
                && key in files
                && (len > 0 ==> offset + len <= |Lookup(key)| && out == Lookup(key)[offset..offset + len])
                && (len == 0 ==> out == [])
      ensures old(ReadAgrees()) && error == Some(UnexpectedEof) ==>
                key in files && len > 0 && offset + len > |Lookup(key)|
      ensures error.Some? ==>
                || error == Some(UnexpectedEof)
                || error == Some(DeviceError)
                || (error == Some(NotFound) && key !in files)
                || (error == Some(TooFragmented) && key in files && |files[key]| > MAX_FILE_EXTENTS)
      ensures old(ReadAgrees()) && error != Some(DeviceError) ==>
                Answer(out, 0, error) == PlainRead(State(), base, key, offset, len)
      ensures device.failures >= old(device.failures)
      ensures error == Some(DeviceError) <==> device.failures > old(device.failures)
    {
      error := EnsureReadCache(key);
      out := [];
      if error.Some? { return; }
      var read := activeRead.value;
      var available := if offset <= read.size then read.size - offset else 0;
      if len > available { return [], Some(UnexpectedEof); }
      if len > 0 {
        var failed;
        out, failed := ReadExtents(device, base, read.extents, offset, len);
        if failed.Some? { return [], Some(if failed.value == DeviceFailed then DeviceError else BadOffset); }
      }
    }

    /** The size answered from the cache is the size a fresh lookup would find. */
    method FileSize(key: Key) returns (r: Result<nat, Error>)
      requires Valid()
      ensures ReadAgrees() ==> r == if key in files then Ok(|Lookup(key)|) else Err(NotFound)
      ensures ReadAgrees() && key in files ==> |Lookup(key)| == FileLength(files[key])
    {
      if activeRead.Some? && activeRead.value.key == key { return Ok(activeRead.value.size); }
      if key !in files { return Err(NotFound); }
      return Ok(FileLength(files[key]));
    }
  }

  // ---- Runs ----

  /** A call that changes a file without being an upload call. */
  predicate Foreign(c: Call) {
    c.Change? || c.Delete?
  }

  /** One call, answered as a storage without caches would answer it, unless the card fails. */
  method Perform(s: SdStorage, c: Call) returns (answer: Answer)
    requires s.Valid() && s.ReadAgrees() && s.UploadAgrees() && WellFormed(c)
    requires !(Foreign(c) && s.Uploading(c.key))
    modifies s, s.device
    ensures s.Valid() && s.ReadAgrees() && s.UploadAgrees()
    ensures answer.error != Some(DeviceError) ==> (s.State(), answer) == PlainCall(old(s.State()), s.base, c)
    ensures s.device.failures >= old(s.device.failures)
    ensures answer.error == Some(DeviceError) <==> s.device.failures > old(s.device.failures)
  {
    var error;
    match c {
      case Begin(key, size, chain) => error := s.BeginUpload(key, size, chain);
      case Chunk(key, offset, data) => error := s.WriteUploadChunk(key, offset, data);
      case Commit(key) => error := s.CommitUpload(key);
      case Abort(key) => error := s.AbortUpload(key);
      case Change(key, chain, content) => error := s.ChangeFile(key, chain, content);
      case Delete(key) => error := s.DeleteFile(key);
      case Read(key, offset, len) =>
        var out;
        out, error := s.ReadAt(key, offset, len);
        return Answer(out, 0, error);
      case Size(key) =>
        var r := s.FileSize(key);
        return if r.Ok? then Answer([], r.value, None) else Reply(Some(r.error));
    }
    return Reply(error);
  }

  /** The first `k` calls on a storage without caches: how it is left, and its answers. */
  ghost function PlainRun(p: Plain, base: nat, calls: seq<Call>, k: nat): (Plain, seq<Answer>)
    requires k <= |calls|
  {
    if k == 0 then (p, [])
    else
      var (q, answers) := PlainRun(p, base, calls, k - 1);
      if Sound(q.files, base, |q.data|) && WellFormed(calls[k - 1]) then
        var (after, answer) := PlainCall(q, base, calls[k - 1]);
        (after, answers + [answer])
      else (q, answers)
  }

  /**
   A run goes on until a foreign call touches the file being uploaded, or the card fails. Both remembered files
   agree with the file system throughout, and all answers are those of a storage without caches.
   */
  method RunCalls(s: SdStorage, calls: seq<Call>) returns (answers: seq<Answer>, failed: bool)
    requires s.Valid() && s.ReadAgrees() && s.UploadAgrees()
    requires forall c :: c in calls ==> WellFormed(c)
    modifies s, s.device
    ensures s.Valid() && s.ReadAgrees() && s.UploadAgrees()
    ensures |answers| <= |calls| && answers == PlainRun(old(s.State()), s.base, calls, |answers|).1
    ensures !failed ==> s.State() == PlainRun(old(s.State()), s.base, calls, |answers|).0
    ensures failed <==> s.device.failures > old(s.device.failures)
    ensures !failed && |answers| < |calls| ==> Foreign(calls[|answers|]) && s.Uploading(calls[|answers|].key)
  {
    answers, failed := [], false;
    ghost var start := s.State();
    while |answers| < |calls|
      invariant |answers| <= |calls| && s.Valid() && s.ReadAgrees() && s.UploadAgrees() && !failed
      invariant PlainRun(start, s.base, calls, |answers|) == (s.State(), answers)
      invariant s.device.failures == old(s.device.failures)
    {
      var c := calls[|answers|];
      assert WellFormed(c);
      if Foreign(c) && s.Uploading(c.key) { return; }
      var answer := Perform(s, c);
      if answer.error == Some(DeviceError) { return answers, true; }
      answers := answers + [answer];
    }
  }

  /**
   Without that restriction the cache goes stale: deleting the file being uploaded and then committing leaves
   a remembered file that does not exist.
   */
  method DeletedDuringUpload(s: SdStorage, key: Key)
    requires s.Valid() && s.UploadAgrees() && s.Uploading(key)
    modifies s
    ensures s.activeRead.Some? && s.activeRead.value.key == key && key !in s.files && !s.ReadAgrees()
  {
    var _ := s.DeleteFile(key);
    var _ := s.CommitUpload(key);
  }
}
