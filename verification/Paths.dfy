/** Path lookup over directory listings (core/src/directory.rs:474-502). */
module Paths {
  import opened Wrappers
  import opened Bytes
  import opened Utf16
  import opened Minstore
  import opened Directory

  const SLASH: Scalar := 0x2F

  /** `path.split('/')`, keeping the non-empty pieces. */
  function Components(path: Name): seq<Name> {
    SplitFrom([], path)
  }

  /** `piece` is what has been read since the last slash. */
  function SplitFrom(piece: Name, path: Name): seq<Name>
    decreases |path|
  {
    if path == [] then Piece(piece)
    else if path[0] == SLASH then Piece(piece) + SplitFrom([], path[1..])
    else SplitFrom(piece + [path[0]], path[1..])
  }

  function Piece(piece: Name): seq<Name> {
    if piece == [] then [] else [piece]
  }

  /** The first entry with the given name. */
  function FirstNamed(entries: seq<DirEntry>, name: Name): Option<DirEntry> {
    if entries == [] then None
    else if entries[0].name == name then Some(entries[0])
    else FirstNamed(entries[1..], name)
  }

  /** A directory listing for each object id. */
  type Lister = U64 -> Result<seq<DirEntry>>

  ghost function ListerOf(image: Buffer): Lister {
    (objectId: U64) => Listing(image, objectId)
  }

  /** What one component finds in directory `dir`: nothing if the listing fails. */
  function Step(list: Lister, dir: U64, component: Name): Option<DirEntry> {
    var listing := list(dir);
    if listing.Failure? then None else FirstNamed(listing.value, component)
  }

  /** The containing directory and metadata that `components` lead to from `dir`. */
  function Follow(list: Lister, dir: U64, components: seq<Name>): Option<(U64, FileMetadata)>
    decreases |components|
  {
    if components == [] then None else
    var entry :- Step(list, dir, components[0]);
    if |components| == 1 then
      var md :- entry.metadata;
      Some((dir, md))
    else
      var child :- entry.objectId;
      Follow(list, child, components[1..])
  }

  method FindByPath(image: Buffer, path: Name) returns (r: Option<(U64, FileMetadata)>)
    ensures r == Follow(ListerOf(image), REFS_ROOT_DIRECTORY_ID, Components(path))
  {
    var components := Components(path);
    if components == [] {
      return None;
    }
    var dirId := REFS_ROOT_DIRECTORY_ID;
    for i := 0 to |components|
      invariant i < |components|
      invariant Follow(ListerOf(image), dirId, components[i..])
             == Follow(ListerOf(image), REFS_ROOT_DIRECTORY_ID, components)
    {
      assert components[i..][0] == components[i] && components[i..][1..] == components[i + 1..];
      var entries := ListDir(image, dirId);
      if entries.Failure? {
        return None;
      }
      var entry := FirstNamed(entries.value, components[i]);
      if entry.None? {
        return None;
      }
      if i + 1 == |components| {
        return match entry.value.metadata
          case Some(md) => Some((dirId, md))
          case None => None;
      }
      if entry.value.objectId.None? {
        return None;
      }
      dirId := entry.value.objectId.value;
    }
    assert false; // the last component always returns
  }

  // ---- The recursive meaning -----------------------------------------------------------

  /** The listing of `dir` succeeds, and its entry `k` is the first of that name. */
  ghost predicate FindsAt(list: Lister, dir: U64, name: Name, k: nat) {
    && list(dir).Success? && k < |list(dir).value| && list(dir).value[k].name == name
    && forall j :: 0 <= j < k ==> list(dir).value[j].name != name
  }

  lemma StepExactly(list: Lister, dir: U64, name: Name)
    ensures Step(list, dir, name).Some? <==> exists k: nat :: FindsAt(list, dir, name, k)
    ensures forall k: nat :: FindsAt(list, dir, name, k) ==> Step(list, dir, name) == Some(list(dir).value[k])
  {
    hide FirstNamed;
    if list(dir).Success? {
      FirstNamedIsFirst(list(dir).value, name);
      if Step(list, dir, name).Some? {
        var e := Step(list, dir, name).value;
        var k: nat :| k < |list(dir).value| && list(dir).value[k] == e && e.name == name
          && forall j :: 0 <= j < k ==> list(dir).value[j].name != name;
        assert FindsAt(list, dir, name, k);
      }
    }
  }

  /** `dirs` are the directories the components are looked up in and `at` where their entries are
      found, each the first of its name; each directory but the first is the one the previous entry
      names, and `md` is the last entry's metadata. */
  ghost predicate IsTrail(list: Lister, components: seq<Name>, dirs: seq<U64>, at: seq<nat>, md: FileMetadata) {
    && |dirs| == |at| == |components| > 0
    && (forall i :: 0 <= i < |dirs| ==> FindsAt(list, dirs[i], components[i], at[i]))
    && (forall i :: 0 <= i < |dirs| - 1 ==> list(dirs[i]).value[at[i]].objectId == Some(dirs[i + 1]))
    && list(dirs[|dirs| - 1]).value[at[|dirs| - 1]].metadata == Some(md)
  }

  lemma {:induction false} FollowMakesTrail(list: Lister, dir: U64, components: seq<Name>)
    returns (dirs: seq<U64>, at: seq<nat>)
    requires Follow(list, dir, components).Some?
    ensures var (d, md) := Follow(list, dir, components).value;
      IsTrail(list, components, dirs, at, md) && dirs[0] == dir && dirs[|dirs| - 1] == d
    decreases |components|
  {
    hide Step;
    StepExactly(list, dir, components[0]);
    var k: nat :| FindsAt(list, dir, components[0], k);
    dirs, at := [dir], [k];
    if |components| > 1 {
      var child := Step(list, dir, components[0]).value.objectId.value;
      var rest, others := FollowMakesTrail(list, child, components[1..]);
      dirs, at := [dir] + rest, [k] + others;
      TrailBefore(list, dir, components, k, rest, others, Follow(list, dir, components).value.1);
    }
  }

  lemma TrailBefore(list: Lister, dir: U64, components: seq<Name>, k: nat, rest: seq<U64>, others: seq<nat>,
                    md: FileMetadata)
    requires components != [] && FindsAt(list, dir, components[0], k)
    requires IsTrail(list, components[1..], rest, others, md) && list(dir).value[k].objectId == Some(rest[0])
    ensures IsTrail(list, components, [dir] + rest, [k] + others, md)
  {
    var dirs, at := [dir] + rest, [k] + others;
    forall i | 0 <= i < |dirs|
      ensures FindsAt(list, dirs[i], components[i], at[i])
      ensures i < |dirs| - 1 ==> list(dirs[i]).value[at[i]].objectId == Some(dirs[i + 1])
    {
      if i > 0 { assert FindsAt(list, rest[i - 1], components[1..][i - 1], others[i - 1]); }
    }
  }

  lemma {:induction false} TrailIsFollowed(list: Lister, components: seq<Name>, dirs: seq<U64>, at: seq<nat>,
                                           md: FileMetadata)
    requires IsTrail(list, components, dirs, at, md)
    ensures Follow(list, dirs[0], components) == Some((dirs[|dirs| - 1], md))
  {
    hide Step;
    StepExactly(list, dirs[0], components[0]);
    assert FindsAt(list, dirs[0], components[0], at[0]);
    if |components| > 1 {
      assert list(dirs[0]).value[at[0]].objectId == Some(dirs[1]);
      TrailIsFollowed(list, components[1..], dirs[1..], at[1..], md);
    }
  }

  /** Path lookup succeeds with (d, md) if and only if first-match entries lead, component by
      component, from the root directory to directory d and an entry there with metadata md. */
  lemma FollowsExactlyTheTrail(list: Lister, path: Name, d: U64, md: FileMetadata)
    ensures Follow(list, REFS_ROOT_DIRECTORY_ID, Components(path)) == Some((d, md)) <==>
      exists dirs, at :: IsTrail(list, Components(path), dirs, at, md) && dirs[0] == 0x600 && dirs[|dirs| - 1] == d
  {
    hide Components, Step;
    var components := Components(path);
    if Follow(list, REFS_ROOT_DIRECTORY_ID, components) == Some((d, md)) {
      var dirs, at := FollowMakesTrail(list, REFS_ROOT_DIRECTORY_ID, components);
    }
    if dirs, at :| IsTrail(list, components, dirs, at, md) && dirs[0] == 0x600 && dirs[|dirs| - 1] == d {
      TrailIsFollowed(list, components, dirs, at, md);
    }
  }

  // ---- Composition and slashes -----------------------------------------------------------

  /** The directory that `components` name, starting from `dir`. */
  function Enter(list: Lister, dir: U64, components: seq<Name>): Option<U64>
    decreases |components|
  {
    if components == [] then Some(dir) else
    var entry :- Step(list, dir, components[0]);
    var child :- entry.objectId;
    Enter(list, child, components[1..])
  }

  lemma {:induction false} FollowComposes(list: Lister, dir: U64, p: seq<Name>, q: seq<Name>)
    requires q != []
    ensures Follow(list, dir, p + q) ==
      match Enter(list, dir, p) case Some(d) => Follow(list, d, q) case None => None
    decreases |p|
  {
    hide Step;
    if p == [] {
      assert p + q == q;
    } else {
      assert (p + q)[1..] == p[1..] + q;
      var entry := Step(list, dir, p[0]);
      if entry.Some? && entry.value.objectId.Some? {
        FollowComposes(list, entry.value.objectId.value, p[1..], q);
      }
    }
  }

  lemma {:induction false} SplitAtSlash(piece: Name, a: Name, b: Name)
    ensures SplitFrom(piece, a + [SLASH] + b) == SplitFrom(piece, a) + Components(b)
    decreases |a|
  {
    var s := a + [SLASH] + b;
    if a == [] {
      assert s[1..] == b;
    } else {
      assert s[0] == a[0] && s[1..] == a[1..] + [SLASH] + b;
      if a[0] == SLASH {
        SplitAtSlash([], a[1..], b);
      } else {
        SplitAtSlash(piece + [a[0]], a[1..], b);
      }
    }
  }

  /** The components of a/b are those of a, then those of b; so leading, trailing and doubled
      slashes change nothing. */
  lemma SlashJoinsComponents(a: Name, b: Name)
    ensures Components(a + [0x2F] + b) == Components(a) + Components(b)
    ensures Components([0x2F] + b) == Components(b)
    ensures Components(a + [0x2F]) == Components(a)
  {
    SplitAtSlash([], a, b);
    SplitAtSlash([], [], b);
    assert [] + [SLASH] + b == [SLASH] + b;
    SplitAtSlash([], a, []);
    assert a + [SLASH] + [] == a + [SLASH];
  }

  /** No component is empty or holds a slash, and the components are the pieces themselves:
      a slash-free path is its own only component. */
  lemma {:induction false} ComponentsAreSlashFree(piece: Name, path: Name)
    requires 0x2F !in piece
    ensures forall k :: 0 <= k < |SplitFrom(piece, path)| ==>
      SplitFrom(piece, path)[k] != [] && 0x2F !in SplitFrom(piece, path)[k]
    ensures 0x2F !in path ==> SplitFrom(piece, path) == Piece(piece + path)
    decreases |path|
  {
    if path == [] {
      assert piece + path == piece;
    } else if path[0] == SLASH {
      ComponentsAreSlashFree([], path[1..]);
    } else {
      ComponentsAreSlashFree(piece + [path[0]], path[1..]);
      assert piece + [path[0]] + path[1..] == piece + path;
    }
  }

  /** Resolving a/b is resolving b in the directory that a names. */
  lemma PathsCompose(list: Lister, a: Name, b: Name)
    requires Components(b) != []
    ensures Follow(list, REFS_ROOT_DIRECTORY_ID, Components(a + [SLASH] + b)) ==
      match Enter(list, REFS_ROOT_DIRECTORY_ID, Components(a))
      case Some(d) => Follow(list, d, Components(b))
      case None => None
  {
    hide Components, Follow, Enter;
    SlashJoinsComponents(a, b);
    FollowComposes(list, REFS_ROOT_DIRECTORY_ID, Components(a), Components(b));
  }

  /** FirstNamed is the first match. */
  lemma {:induction false} FirstNamedIsFirst(entries: seq<DirEntry>, name: Name)
    ensures match FirstNamed(entries, name)
      case None => forall i :: 0 <= i < |entries| ==> entries[i].name != name
      case Some(e) => exists i :: 0 <= i < |entries| && entries[i] == e && e.name == name
                        && forall j :: 0 <= j < i ==> entries[j].name != name
  {
    if entries != [] && entries[0].name != name {
      var rest := entries[1..];
      FirstNamedIsFirst(rest, name);
      if FirstNamed(entries, name).Some? {
        var e := FirstNamed(entries, name).value;
        var i :| 0 <= i < |rest| && rest[i] == e && e.name == name && forall j :: 0 <= j < i ==> rest[j].name != name;
        assert entries[i + 1] == e;
        assert forall j :: 1 <= j < i + 1 ==> entries[j] == rest[j - 1];
      } else {
        assert forall i :: 1 <= i < |entries| ==> entries[i] == rest[i - 1];
      }
    } else if entries != [] {
      assert entries[0].name == name;
    }
  }
}
