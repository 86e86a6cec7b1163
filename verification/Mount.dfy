/** Refusing to mount an image that has changed: crates/plexos-plex/src/mount.rs. */
module Mount {
  import opened Wrappers
  import opened Text
  import opened Store

  datatype Refusal =
    | NoImage(image: string)
    | NoRecord(record: string)
    | UnreadableRecord(record: string)
    | Altered(image: string, recorded: string, found: string)
    | Failed

  datatype Verified = Verified(digest: string)

  function Check(image: string, record: string,
                 exists_: string -> bool, read: string -> Option<string>,
                 hashFile: string -> Option<string>): Result<Verified, Refusal>
  {
    if !exists_(image) then Err(NoImage(image))
    else if !exists_(record) then Err(NoRecord(record))
    else if read(record).None? then Err(UnreadableRecord(record))
    else if DigestFromRecord(read(record).value, image).None? then Err(UnreadableRecord(record))
    else if hashFile(image).None? then Err(Failed)
    else
      var recorded := DigestFromRecord(read(record).value, image).value;
      if Lower(hashFile(image).value) != Lower(recorded) then Err(Altered(image, recorded, hashFile(image).value))
      else Ok(Verified(recorded))
  }
}
