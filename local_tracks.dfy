/** The local inventory: which files of the music directory are scanned and
    which label each scanned file contributes (`get_local_tracks`). */
module LocalTracks {
  import opened Wrappers
  import opened Labels

  // ---------------------------------------------------------------------------
  // The audio-extension test
  // ---------------------------------------------------------------------------

  /** Lower-cases the letters A to Z and leaves every other character alone. */
  function LowerChar(c: char): (r: char)
    ensures !('A' <= r <= 'Z')
    ensures !('A' <= c <= 'Z') ==> r == c
  {
    if 'A' <= c <= 'Z' then (c as int - 'A' as int + 'a' as int) as char else c
  }

  /** The name with every letter lower-cased. */
  function Lower(s: string): (r: string)
    ensures |r| == |s|
    ensures forall i :: 0 <= i < |s| ==> r[i] == LowerChar(s[i])
  {
    seq(|s|, i requires 0 <= i < |s| => LowerChar(s[i]))
  }

  /** `s.endswith(suffix)`: `s` is some text followed by `suffix`. */
  function EndsWith(s: string, suffix: string): (b: bool)
    ensures b <==> exists p :: s == p + suffix
  {
    if |suffix| <= |s| && s[|s| - |suffix|..] == suffix then
      assert s == s[..|s| - |suffix|] + suffix;
      true
    else
      assert forall p :: |(p + suffix)[|p|..]| == |suffix| && (p + suffix)[|p|..] == suffix;
      false
  }

  /** The extensions of the files that are scanned, in lower case. */
  const AudioExtensions: seq<string> := [".mp3", ".flac", ".wav"]

  /** A file is scanned when its lower-cased name ends in one of the audio extensions. */
  predicate IsAudioFile(name: string)
    ensures IsAudioFile(name) ==> 4 <= |name|
  {
    exists ext | ext in AudioExtensions :: EndsWith(Lower(name), ext)
  }

  /** Lower-casing a tail of a name is the same as taking that tail of the lower-cased name. */
  lemma LowerTail(s: string, k: nat)
    requires k <= |s|
    ensures Lower(s)[k..] == Lower(s[k..])
  {
  }

  /** The lower-cased name ends in `ext` exactly when its tail of that length lower-cases to `ext`. */
  lemma EndsWithLowerTail(name: string, ext: string)
    ensures EndsWith(Lower(name), ext) <==> |ext| <= |name| && Lower(name[|name| - |ext|..]) == ext
  {
    if |ext| <= |name| {
      LowerTail(name, |name| - |ext|);
    }
  }

  /** The name's tail of the length of `ext` lower-cases to `ext`. */
  predicate TailIs(name: string, ext: string)
  {
    |ext| <= |name| && Lower(name[|name| - |ext|..]) == ext
  }

  /** The test is exactly: some audio extension equals the lower-cased tail of the
      name of the same length, so only the last characters decide, in any case. */
  lemma AudioFileByTail(name: string)
    ensures IsAudioFile(name) <==> exists ext :: ext in AudioExtensions && TailIs(name, ext)
  {
    forall ext | ext in AudioExtensions
      ensures EndsWith(Lower(name), ext) <==> TailIs(name, ext)
    {
      EndsWithLowerTail(name, ext);
    }
  }

  /** Any name followed by an audio extension is scanned. */
  lemma AudioFileAccepts(base: string, ext: string)
    requires ext in AudioExtensions
    ensures IsAudioFile(base + ext)
  {
    var name := base + ext;
    assert name[|name| - |ext|..] == ext;
    assert Lower(ext) == ext;
    AudioFileByTail(name);
  }

  /** Changing the case of a name never changes whether it is scanned. */
  lemma AudioFileIgnoresCase(name: string)
    ensures IsAudioFile(Lower(name)) == IsAudioFile(name)
  {
    assert Lower(Lower(name)) == Lower(name);
  }

  // ---------------------------------------------------------------------------
  // The label of one scanned file
  // ---------------------------------------------------------------------------

  /** The artist used when a file's tags name none. */
  const UnknownArtist: string := "Unknown"

  /** The outcome of reading a file's tags: the read raised, or the tag map it
      produced (each key holds a list of values). */
  datatype TagRead = Unreadable | Tags(meta: map<string, seq<string>>)

  /** `meta.get(key, [default])[0]`: None when the key holds an empty list,
      where indexing the list raises. */
  function FirstTag(meta: map<string, seq<string>>, key: string, default: string): (r: Option<string>)
    ensures key !in meta ==> r == Some(default)
    ensures key in meta ==> (r.None? <==> meta[key] == [])
    ensures key in meta && r.Some? ==> r.value == meta[key][0]
  {
    var values := if key in meta then meta[key] else [default];
    if values == [] then None else Some(values[0])
  }

  /** The key holds an empty list of values. */
  predicate EmptyTag(meta: map<string, seq<string>>, key: string)
  {
    key in meta && meta[key] == []
  }

  /** The label a scanned file contributes: "{artist} - {title}" from its tags,
      or the bare file name when reading or indexing the tags raised. */
  function LocalLabel(file: string, read: TagRead): (r: string)
    ensures read.Unreadable? ==> r == file
    ensures read.Tags? && (EmptyTag(read.meta, "artist") || EmptyTag(read.meta, "title")) ==> r == file
    ensures read.Tags? && "artist" !in read.meta && "title" !in read.meta ==> r == Label(UnknownArtist, file)
    ensures read.Tags? && "artist" !in read.meta && "title" in read.meta && read.meta["title"] != [] ==>
      r == Label(UnknownArtist, read.meta["title"][0])
    ensures read.Tags? && "artist" in read.meta && read.meta["artist"] != [] && "title" !in read.meta ==>
      r == Label(read.meta["artist"][0], file)
    ensures read.Tags? && "artist" in read.meta && read.meta["artist"] != [] && "title" in read.meta && read.meta["title"] != [] ==>
      r == Label(read.meta["artist"][0], read.meta["title"][0])
  {
    match read
    case Unreadable => file
    case Tags(meta) =>
      match (FirstTag(meta, "artist", UnknownArtist), FirstTag(meta, "title", file))
      case (Some(artist), Some(title)) => Label(artist, title)
      case _ => file
  }

  // ---------------------------------------------------------------------------
  // The whole directory walk
  // ---------------------------------------------------------------------------

  /** A file the directory walk lists: its name and the outcome of reading its tags. */
  datatype WalkedFile = WalkedFile(name: string, tags: TagRead)

  /** The file lists of the walked directories, one after the other. */
  function Flatten(walk: seq<seq<WalkedFile>>): (r: seq<WalkedFile>)
    ensures forall f :: f in r <==> exists d :: 0 <= d < |walk| && f in walk[d]
  {
    if walk == [] then []
    else
      var init := walk[..|walk| - 1];
      var r := Flatten(init) + walk[|walk| - 1];
      assert forall d :: 0 <= d < |init| ==> init[d] == walk[d];
      r
  }

  /** The files that are scanned, in walk order. */
  function Scanned(files: seq<WalkedFile>): (r: seq<WalkedFile>)
    ensures |r| <= |files|
    ensures forall f :: f in r <==> f in files && IsAudioFile(f.name)
  {
    if files == [] then []
    else
      var last := files[|files| - 1];
      Scanned(files[..|files| - 1]) + (if IsAudioFile(last.name) then [last] else [])
  }

  /** The labels of the scanned files, in walk order. */
  function LocalLabels(files: seq<WalkedFile>): (r: seq<string>)
    ensures |r| <= |files|
  {
    if files == [] then []
    else
      var last := files[|files| - 1];
      LocalLabels(files[..|files| - 1]) + (if IsAudioFile(last.name) then [LocalLabel(last.name, last.tags)] else [])
  }

  /** Every scanned file contributes exactly one label, the k-th label being the
      k-th scanned file's, and unscanned files contribute none. */
  lemma {:induction false} OneLabelPerScannedFile(files: seq<WalkedFile>)
    ensures |LocalLabels(files)| == |Scanned(files)|
    ensures forall k :: 0 <= k < |Scanned(files)| ==>
      LocalLabels(files)[k] == LocalLabel(Scanned(files)[k].name, Scanned(files)[k].tags)
  {
    if files != [] {
      OneLabelPerScannedFile(files[..|files| - 1]);
    }
  }

  /** Scanning two runs of files one after the other yields the labels of each, in order. */
  lemma {:induction false} LocalLabelsAppend(a: seq<WalkedFile>, b: seq<WalkedFile>)
    ensures LocalLabels(a + b) == LocalLabels(a) + LocalLabels(b)
    decreases |b|
  {
    if b == [] {
      assert a + b == a;
    } else {
      var init := b[..|b| - 1];
      assert (a + b)[..|a + b| - 1] == a + init;
      LocalLabelsAppend(a, init);
    }
  }

  /** One more file adds its label when it is scanned, and nothing otherwise. */
  lemma LocalLabelsSnoc(files: seq<WalkedFile>, file: WalkedFile)
    ensures LocalLabels(files + [file]) ==
      LocalLabels(files) + (if IsAudioFile(file.name) then [LocalLabel(file.name, file.tags)] else [])
  {
    assert (files + [file])[..|files|] == files;
  }

  /** Scanning the next file of a directory adds its label when it is scanned. */
  lemma ScanStep(done: seq<WalkedFile>, files: seq<WalkedFile>, j: nat)
    requires j < |files|
    ensures LocalLabels(done + files[..j + 1]) ==
      LocalLabels(done + files[..j]) + (if IsAudioFile(files[j].name) then [LocalLabel(files[j].name, files[j].tags)] else [])
  {
    assert done + files[..j + 1] == (done + files[..j]) + [files[j]];
    LocalLabelsSnoc(done + files[..j], files[j]);
  }

  /** The walk up to directory `d` inclusive lists the files up to `d` exclusive, then those of `d`. */
  lemma FlattenSnoc(walk: seq<seq<WalkedFile>>, d: nat)
    requires d < |walk|
    ensures Flatten(walk[..d + 1]) == Flatten(walk[..d]) + walk[d]
  {
    assert walk[..d + 1][..d] == walk[..d];
  }

  /** `get_local_tracks`: walks every directory and every file in it, and
      appends one label for each file with an audio extension. */
  method GetLocalTracks(walk: seq<seq<WalkedFile>>) returns (localTracks: seq<string>)
    ensures localTracks == LocalLabels(Flatten(walk))

  {
    localTracks := [];
    var d := 0;
    while d < |walk|
      invariant 0 <= d <= |walk|
      invariant localTracks == LocalLabels(Flatten(walk[..d]))
    {
      var files := walk[d];
      ghost var done := Flatten(walk[..d]);
      var j := 0;
      assert done + files[..j] == done;
      while j < |files|
        invariant 0 <= j <= |files|
        invariant localTracks == LocalLabels(done + files[..j])
      {
        var file := files[j];
        ScanStep(done, files, j);
        if IsAudioFile(file.name) {
          localTracks := localTracks + [LocalLabel(file.name, file.tags)];
        }
        j := j + 1;
      }
      assert files[..j] == files;
      FlattenSnoc(walk, d);
      d := d + 1;
    }
    assert walk[..d] == walk;
  }
}
