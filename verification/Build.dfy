/** The plan for installing an app image, as data: crates/plexos-plex/src/build.rs. Paths are
    names inside the one directory that holds the images. */
module Build {
  import opened Text
  import opened Store

  /** Where the `ar` directory located `data.tar.xz`. */
  datatype Extent = Extent(offset: nat, size: nat)

  datatype Step =
    | ClearStaging(paths: seq<string>)
    | CreateDir(path: string)
    | Unpack(package: string, data: Extent, into: string)
    | Mkfs(source: string, image: string)
    | Record(image: string, record: string, names: string)
    | Publish(staged: string, name: string)
    | Activate(link: string, target: string)
    | Remove(paths: seq<string>)
    | RemoveDir(path: string)

  const SWAP: string := ".current.swap"

  function StagingImage(v: Version): string {
    "." + ImageName(v) + ".incoming"
  }

  function StagingRoot(v: Version): string {
    "." + v.raw + ".unpacked"
  }

  function ImageAndRecord(versions: seq<Version>): seq<string> {
    if versions == [] then []
    else [ImageName(versions[0]), RecordName(versions[0])] + ImageAndRecord(versions[1..])
  }

  function InstallPlan(v: Version, package: string, data: Extent, superseded: seq<Version>): seq<Step> {
    [ ClearStaging([StagingImage(v), StagingRoot(v)]),
      CreateDir(StagingRoot(v)),
      Unpack(package, data, StagingRoot(v)),
      Mkfs(StagingRoot(v), StagingImage(v)),
      Record(StagingImage(v), RecordName(v), ImageName(v)),
      Publish(StagingImage(v), ImageName(v)),
      RemoveDir(StagingRoot(v)),
      Activate(CURRENT_LINK, ImageName(v))
    ] + if superseded == [] then [] else [Remove(ImageAndRecord(superseded))]
  }

  // ----- No name stands for two things -----

  /** A name nothing but an install in progress reads. */
  predicate IsScratch(name: string) {
    VersionOf(name).None? && name != CURRENT_LINK && !EndsWith(name, RECORD_EXT)
  }

  lemma StagingIsScratch(v: Version)
    ensures IsScratch(StagingImage(v)) && IsScratch(StagingRoot(v)) && IsScratch(SWAP)
    ensures StagingImage(v) != StagingRoot(v) && StagingImage(v) != SWAP && StagingRoot(v) != SWAP
  {
    var si, sr := StagingImage(v), StagingRoot(v);
    assert si[|si| - 2] == 'n' && si[|si| - 1] == 'g' && si[0] == '.';
    assert sr[|sr| - 1] == 'd' && sr[0] == '.';
    assert SWAP[|SWAP| - 1] == 'p';
  }

  lemma RecordsAreNotImages(v: Version)
    ensures VersionOf(RecordName(v)).None? && RecordName(v) != CURRENT_LINK
    ensures EndsWith(RecordName(v), RECORD_EXT) && RecordName(v) == ImageName(v) + RECORD_EXT
    ensures VersionOf(CURRENT_LINK).None? && !EndsWith(CURRENT_LINK, RECORD_EXT)
    ensures ImageName(v) != CURRENT_LINK && !EndsWith(ImageName(v), RECORD_EXT)
  {
    var r, i := RecordName(v), ImageName(v);
    assert r[|r| - 1] == '6' && i[|i| - 1] == 'g';
    assert r[|i|..] == RECORD_EXT;
  }

  lemma {:induction false} ImageAndRecordNames(versions: seq<Version>, n: string)
    ensures n in ImageAndRecord(versions) <==>
            exists v :: v in versions && (n == ImageName(v) || n == RecordName(v))
  {
    if versions != [] {
      ImageAndRecordNames(versions[1..], n);
      assert versions == [versions[0]] + versions[1..];
    }
  }
}
