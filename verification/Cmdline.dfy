/** The kernel command line: which slot to boot and the root hash that verifies it. */
module Cmdline {
  import opened Wrappers
  import opened Text
  import opened Partition

  const KEY_SLOT := "plexos.slot"
  const KEY_ROOTHASH := "plexos.roothash"
  const KEY_DEBUG_SHELL := "plexos.debug_shell"

  datatype BootArgs = BootArgs(slot: Slot, rootHash: string, debugShell: bool)

  datatype CmdlineError =
    | MissingSlot
    | UnknownSlot(text: string)
    | MissingRootHash
    | MalformedRootHash(text: string)

  predicate IsPlausibleRootHash(text: string) {
    64 <= |text| <= 128 && forall i :: 0 <= i < |text| ==> IsHexDigit(text[i]) && !('A' <= text[i] <= 'Z')
  }

  // ----- What a command line says -----

  /** The bare key asks for the shell, `=0` withdraws it; the last word on it decides. */
  function DebugShell(words: seq<string>): bool {
    if words == [] then false
    else
      var last := words[|words| - 1];
      if last == KEY_DEBUG_SHELL then true
      else if StartsWith(last, KEY_DEBUG_SHELL + "=") then last[|KEY_DEBUG_SHELL| + 1..] != "0"
      else DebugShell(words[..|words| - 1])
  }

  function ArgsOf(words: seq<string>): Result<BootArgs, CmdlineError> {
    match LastWith(words, KEY_SLOT + "=")
    case None => Err(MissingSlot)
    case Some(slot) =>
      if slot != "a" && slot != "b" then Err(UnknownSlot(slot))
      else
        match LastWith(words, KEY_ROOTHASH + "=")
        case None => Err(MissingRootHash)
        case Some(hash) =>
          if IsPlausibleRootHash(hash) then
            Ok(BootArgs(if slot == "a" then A else B, hash, DebugShell(words)))
          else Err(MalformedRootHash(hash))
  }

  // ----- The parser -----

  /** `split_once('=')`. */
  function SplitOnce(token: string): Option<(string, string)> {
    var i := IndexOf(token, '=');
    if i == |token| then None else Some((token[..i], token[i + 1..]))
  }

  lemma {:induction false} IndexOfKey(key: string, token: string)
    requires '=' !in key && StartsWith(token, key + "=")
    ensures IndexOf(token, '=') == |key|
  {
    assert token == key + ['='] + token[|key| + 1..];
    IndexOfAppended(key, '=', token[|key| + 1..]);
  }

  /** A token has a key exactly when it starts with the key and an equals sign. */
  lemma KeyedTokens(key: string, token: string)
    requires '=' !in key
    ensures StartsWith(token, key + "=") <==> SplitOnce(token).Some? && SplitOnce(token).value.0 == key
    ensures StartsWith(token, key + "=") ==> SplitOnce(token).value.1 == token[|key| + 1..]
    ensures SplitOnce(token).Some? ==> token != key
  {
    if StartsWith(token, key + "=") { IndexOfKey(key, token); }
    var i := IndexOf(token, '=');
    if i < |token| {
      assert token[i] in token;
      if token[..i] == key { assert token[..|key| + 1] == key + "="; }
    }
  }

  lemma KeysAreKeys()
    ensures '=' !in KEY_SLOT && '=' !in KEY_ROOTHASH && '=' !in KEY_DEBUG_SHELL
    ensures KEY_SLOT != KEY_ROOTHASH && KEY_SLOT != KEY_DEBUG_SHELL && KEY_ROOTHASH != KEY_DEBUG_SHELL
  {
  }

  lemma DebugShellStep(words: seq<string>, i: nat)
    requires i < |words|
    ensures DebugShell(words[..i + 1])
         == if words[i] == KEY_DEBUG_SHELL then true
            else if StartsWith(words[i], KEY_DEBUG_SHELL + "=") then words[i][|KEY_DEBUG_SHELL| + 1..] != "0"
            else DebugShell(words[..i])
  {
    assert words[..i + 1][..i] == words[..i];
  }

  /** The loop of `parse` over the words. */
  method Collect(words: seq<string>) returns (slot: Option<string>, rootHash: Option<string>, debugShell: bool)
    ensures slot == LastWith(words, KEY_SLOT + "=")
    ensures rootHash == LastWith(words, KEY_ROOTHASH + "=")
    ensures debugShell == DebugShell(words)
  {
    slot, rootHash, debugShell := None, None, false;
    KeysAreKeys();
    for i := 0 to |words|
      invariant slot == LastWith(words[..i], KEY_SLOT + "=")
      invariant rootHash == LastWith(words[..i], KEY_ROOTHASH + "=")
      invariant debugShell == DebugShell(words[..i])
    {
      var token := words[i];
      slot, rootHash, debugShell := CollectOne(token, slot, rootHash, debugShell);
      LastWithStep(words, i, KEY_SLOT + "=");
      LastWithStep(words, i, KEY_ROOTHASH + "=");
      DebugShellStep(words, i);
    }
    assert words[..|words|] == words;
  }

  /** One word of the loop. */
  method CollectOne(token: string, slot: Option<string>, rootHash: Option<string>, debugShell: bool)
    returns (slot': Option<string>, rootHash': Option<string>, debugShell': bool)
    ensures slot' == if StartsWith(token, KEY_SLOT + "=") then Some(token[|KEY_SLOT + "="|..]) else slot
    ensures rootHash' == if StartsWith(token, KEY_ROOTHASH + "=") then Some(token[|KEY_ROOTHASH + "="|..]) else rootHash
    ensures debugShell' == if token == KEY_DEBUG_SHELL then true
                           else if StartsWith(token, KEY_DEBUG_SHELL + "=") then token[|KEY_DEBUG_SHELL| + 1..] != "0"
                           else debugShell
  {
    slot', rootHash', debugShell' := slot, rootHash, debugShell;
    KeysAreKeys();
    KeyedTokens(KEY_SLOT, token);
    KeyedTokens(KEY_ROOTHASH, token);
    KeyedTokens(KEY_DEBUG_SHELL, token);
    var split := SplitOnce(token);
    if split.None? {
      if token == KEY_DEBUG_SHELL { debugShell' := true; }
      return;
    }
    var (key, value) := split.value;
    if key == KEY_SLOT {
      slot' := Some(value);
    } else if key == KEY_ROOTHASH {
      rootHash' := Some(value);
    } else if key == KEY_DEBUG_SHELL {
      debugShell' := value != "0";
    }
  }

  /** `BootArgs::parse`. */
  method Parse(cmdline: string) returns (r: Result<BootArgs, CmdlineError>)
    ensures r == ArgsOf(Words(cmdline))
  {
    var slot, rootHash, debugShell := Collect(Words(cmdline));
    if slot.None? { return Err(MissingSlot); }
    if slot.value != "a" && slot.value != "b" { return Err(UnknownSlot(slot.value)); }
    if rootHash.None? { return Err(MissingRootHash); }
    if !IsPlausibleRootHash(rootHash.value) { return Err(MalformedRootHash(rootHash.value)); }
    return Ok(BootArgs(if slot.value == "a" then A else B, rootHash.value, debugShell));
  }

  // ----- Properties -----

  /** The word at `i` is the last that starts with the prefix. */
  predicate LastSaid(words: seq<string>, i: nat, prefix: string, value: string) {
    && i < |words|
    && words[i] == prefix + value
    && forall j :: i < j < |words| ==> !StartsWith(words[j], prefix)
  }

  /** An accepted command line gives the slot and the hash of its last words on each, and the hash
      is lower-case hexadecimal of at least 64 digits. */
  lemma AcceptedSaysItLast(words: seq<string>)
    requires ArgsOf(words).Ok?
    ensures exists i, text :: LastSaid(words, i, KEY_SLOT + "=", text)
                              && (text == "a" || text == "b") && (ArgsOf(words).value.slot.A? <==> text == "a")
    ensures exists i :: LastSaid(words, i, KEY_ROOTHASH + "=", ArgsOf(words).value.rootHash)
    ensures IsPlausibleRootHash(ArgsOf(words).value.rootHash)
  {
    LastWithIsLast(words, KEY_SLOT + "=");
    LastWithIsLast(words, KEY_ROOTHASH + "=");
    var slot := LastWith(words, KEY_SLOT + "=").value;
    var i :| 0 <= i < |words| && words[i] == KEY_SLOT + "=" + slot
             && forall j :: i < j < |words| ==> !StartsWith(words[j], KEY_SLOT + "=");
    assert LastSaid(words, i, KEY_SLOT + "=", slot);
    var hash := LastWith(words, KEY_ROOTHASH + "=").value;
    var k :| 0 <= k < |words| && words[k] == KEY_ROOTHASH + "=" + hash
             && forall j :: k < j < |words| ==> !StartsWith(words[j], KEY_ROOTHASH + "=");
    assert LastSaid(words, k, KEY_ROOTHASH + "=", hash);
  }

  /** The last word on the shell asks for it: the bare key, or the key with anything but `0`. */
  ghost predicate AsksForShell(words: seq<string>) {
    exists i ::
      && 0 <= i < |words| && OnShell(words[i]) && words[i] != "plexos.debug_shell=0"
      && forall j :: i < j < |words| ==> !OnShell(words[j])
  }

  predicate OnShell(word: string) {
    word == "plexos.debug_shell" || StartsWith(word, "plexos.debug_shell=")
  }

  lemma {:induction false} DebugShellMeans(words: seq<string>)
    ensures DebugShell(words) <==> AsksForShell(words)
  {
    if words != [] {
      var n := |words| - 1;
      DebugShellMeans(words[..n]);
      ShellWord(words[n]);
      if OnShell(words[n]) {
        if AsksForShell(words) {
          var i :| 0 <= i < |words| && OnShell(words[i]) && words[i] != "plexos.debug_shell=0"
                   && forall j :: i < j < |words| ==> !OnShell(words[j]);
          assert i == n;
        }
      } else {
        if AsksForShell(words) {
          var i :| 0 <= i < |words| && OnShell(words[i]) && words[i] != "plexos.debug_shell=0"
                   && forall j :: i < j < |words| ==> !OnShell(words[j]);
          assert i < n && words[..n][i] == words[i];
        }
        if AsksForShell(words[..n]) {
          var i :| 0 <= i < n && OnShell(words[..n][i]) && words[..n][i] != "plexos.debug_shell=0"
                   && forall j :: i < j < n ==> !OnShell(words[..n][j]);
          assert forall j :: i < j < |words| && j != n ==> words[j] == words[..n][j];
        }
      }
    }
  }

  lemma ShellWord(word: string)
    ensures OnShell(word) <==> word == KEY_DEBUG_SHELL || StartsWith(word, KEY_DEBUG_SHELL + "=")
    ensures StartsWith(word, KEY_DEBUG_SHELL + "=") ==>
              (word[|KEY_DEBUG_SHELL| + 1..] == "0" <==> word == "plexos.debug_shell=0")
  {
    assert KEY_DEBUG_SHELL + "=" == "plexos.debug_shell=";
    if StartsWith(word, "plexos.debug_shell=") {
      assert word == "plexos.debug_shell=" + word[|KEY_DEBUG_SHELL| + 1..];
      assert "plexos.debug_shell=" + "0" == "plexos.debug_shell=0";
    }
  }

  /** 64 to 128 digits, none of them an upper-case letter. */
  predicate LowerHexHash(text: string) {
    64 <= |text| <= 128 && forall i :: 0 <= i < |text| ==> '0' <= text[i] <= '9' || 'a' <= text[i] <= 'f'
  }

  /** Every answer to a command line, and when it is given. */
  lemma AnswersMean(words: seq<string>)
    ensures match ArgsOf(words)
            case Ok(args) =>
              && LastValue(words, "plexos.slot=", if args.slot.A? then "a" else "b")
              && LastValue(words, "plexos.roothash=", args.rootHash) && LowerHexHash(args.rootHash)
              && (args.debugShell <==> AsksForShell(words))
            case Err(MissingSlot) => NoValue(words, "plexos.slot=")
            case Err(UnknownSlot(text)) => LastValue(words, "plexos.slot=", text) && text != "a" && text != "b"
            case Err(MissingRootHash) =>
              (LastValue(words, "plexos.slot=", "a") || LastValue(words, "plexos.slot=", "b"))
              && NoValue(words, "plexos.roothash=")
            case Err(MalformedRootHash(text)) =>
              && (LastValue(words, "plexos.slot=", "a") || LastValue(words, "plexos.slot=", "b"))
              && LastValue(words, "plexos.roothash=", text) && !LowerHexHash(text)
  {
    assert KEY_SLOT + "=" == "plexos.slot=" && KEY_ROOTHASH + "=" == "plexos.roothash=";
    LastWithMeans(words, "plexos.slot=");
    LastWithMeans(words, "plexos.roothash=");
    DebugShellMeans(words);
  }

  /** Without a root hash nothing is accepted. */
  lemma NoHashNoBoot(words: seq<string>)
    requires forall i :: 0 <= i < |words| ==> !StartsWith(words[i], KEY_ROOTHASH + "=")
    ensures ArgsOf(words).Err?
  {
    LastWithIsLast(words, KEY_ROOTHASH + "=");
  }
}
