/**
 * `processMessage`: the depth-first walk of a conversation from a start
 * message. Every assistant message with text contributes its artifacts, each
 * under a fresh file name, to the zip; the walk counts them, visits the
 * children in creation order, and stops descending below depth 100.
 *
 * The walk is specified as a fold (`RunAll`) of one step per visited message
 * over the pre-order list of visited messages (`Preorder`).
 */
module Traversal {
  import opened Maybe
  import opened Extraction
  import opened Naming
  import opened Conversation

  /** A message deeper than this still has its artifacts added, but its children are not visited. */
  const MaxDepth := 100

  /** The state the walk threads: the names in use, the zip's files, and the artifact count. */
  datatype Acc = Acc(names: set<string>, files: map<string, string>, count: int)

  /** One artifact: count it, pick a fresh name for it, and store its content under that name. */
  function AddArtifact(acc: Acc, artifact: Artifact, messageIndex: int, useDirectoryStructure: bool): Acc
  {
    var name := UniqueName(acc.names, artifact.title, artifact.language, messageIndex, useDirectoryStructure);
    Acc(acc.names + {name}, acc.files[name := artifact.content], acc.count + 1)
  }

  /** The artifacts of one message, added in order. */
  function AddArtifacts(acc: Acc, artifacts: seq<Artifact>, messageIndex: int, useDirectoryStructure: bool): Acc
    decreases |artifacts|
  {
    if artifacts == [] then acc
    else AddArtifact(AddArtifacts(acc, artifacts[..|artifacts| - 1], messageIndex, useDirectoryStructure),
                     artifacts[|artifacts| - 1], messageIndex, useDirectoryStructure)
  }

  /** Adding the first `i + 1` artifacts is adding the first `i`, then artifact `i`. */
  lemma AddArtifactsStep(acc: Acc, artifacts: seq<Artifact>, i: nat, messageIndex: int, useDirectoryStructure: bool)
    requires i < |artifacts|
    ensures AddArtifacts(acc, artifacts[..i + 1], messageIndex, useDirectoryStructure)
         == AddArtifact(AddArtifacts(acc, artifacts[..i], messageIndex, useDirectoryStructure), artifacts[i],
                        messageIndex, useDirectoryStructure)
  {
    assert artifacts[..i + 1][..i] == artifacts[..i];
  }

  /** `message.sender === "assistant" && message.text`: the messages whose artifacts are collected. */
  predicate HasArtifacts(m: Message)
  {
    m.sender == "assistant" && m.text != ""
  }

  /** The effect of visiting one message. */
  function VisitNode(acc: Acc, m: Message, useDirectoryStructure: bool): Acc
  {
    if HasArtifacts(m) then AddArtifacts(acc, ArtifactsIn(m.text), m.index, useDirectoryStructure) else acc
  }

  /** How many more levels the walk may descend from `depth`. */
  function Budget(depth: nat): nat
  {
    if depth > MaxDepth then 0 else MaxDepth + 1 - depth
  }

  /**
   * The messages the walk visits from `m` at `depth`, in visiting order: `m`
   * itself, then (unless `depth` is past the limit) the walks of its children
   * in creation order.
   */
  function Preorder(payload: Payload, m: Message, depth: nat): (r: seq<Message>)
    ensures r != [] && r[0] == m
    decreases Budget(depth), 0
  {
    [m] + (if depth > MaxDepth then [] else PreorderAll(payload, ChildrenOf(payload, m.uuid), depth + 1))
  }

  /** What the walk visits after `m` itself. */
  lemma PreorderRest(payload: Payload, m: Message, depth: nat)
    ensures Preorder(payload, m, depth)[1..]
         == if depth > MaxDepth then [] else PreorderAll(payload, ChildrenOf(payload, m.uuid), depth + 1)
  {
    var rest := if depth > MaxDepth then [] else PreorderAll(payload, ChildrenOf(payload, m.uuid), depth + 1);
    assert ([m] + rest)[1..] == rest;
  }

  /** The walks of `children`, one after another, all at `depth`. */
  function PreorderAll(payload: Payload, children: seq<Message>, depth: nat): seq<Message>
    decreases Budget(depth), |children|
  {
    if children == [] then []
    else PreorderAll(payload, children[..|children| - 1], depth) + Preorder(payload, children[|children| - 1], depth)
  }

  /** The state after visiting `visits` in order, starting from `acc`. */
  function RunAll(acc: Acc, visits: seq<Message>, useDirectoryStructure: bool): Acc
    decreases |visits|
  {
    if visits == [] then acc else RunAll(VisitNode(acc, visits[0], useDirectoryStructure), visits[1..], useDirectoryStructure)
  }

  /** Visiting `xs` and then `ys` is visiting `xs + ys`. */
  lemma {:induction false} RunAllAppend(acc: Acc, xs: seq<Message>, ys: seq<Message>, useDirectoryStructure: bool)
    ensures RunAll(acc, xs + ys, useDirectoryStructure) == RunAll(RunAll(acc, xs, useDirectoryStructure), ys, useDirectoryStructure)
    decreases |xs|
  {
    if xs != [] {
      assert (xs + ys)[0] == xs[0];
      assert (xs + ys)[1..] == xs[1..] + ys;
      RunAllAppend(VisitNode(acc, xs[0], useDirectoryStructure), xs[1..], ys, useDirectoryStructure);
    } else {
      assert xs + ys == ys;
    }
  }

  /** The number of artifacts in the messages `visits` that have artifacts collected. */
  function ArtifactTotal(visits: seq<Message>): nat
  {
    if visits == [] then 0
    else (if HasArtifacts(visits[0]) then |ArtifactsIn(visits[0].text)| else 0) + ArtifactTotal(visits[1..])
  }

  /** Every file of the zip is named in the set of used names. */
  predicate Consistent(acc: Acc)
  {
    acc.files.Keys <= acc.names
  }

  /**
   * `after` grows `before` by exactly one new name and one new file per
   * counted artifact, and keeps every file `before` had, with its content.
   */
  predicate Extends(before: Acc, after: Acc)
  {
    && before.names <= after.names
    && |after.names| - |before.names| == after.count - before.count
    && |after.files| - |before.files| == after.count - before.count
    && after.files.Keys - before.files.Keys == after.names - before.names
    && forall n :: n in before.files ==> n in after.files && after.files[n] == before.files[n]
  }

  /** Each artifact lands under a name not used before, so no file is overwritten. */
  lemma AddArtifactExtends(acc: Acc, artifact: Artifact, messageIndex: int, useDirectoryStructure: bool)
    requires Consistent(acc)
    ensures var after := AddArtifact(acc, artifact, messageIndex, useDirectoryStructure);
            Consistent(after) && Extends(acc, after)
  {
    var name := UniqueName(acc.names, artifact.title, artifact.language, messageIndex, useDirectoryStructure);
    assert name !in acc.files;
    assert acc.files[name := artifact.content].Keys == acc.files.Keys + {name};
  }

  /** Growth composes. */
  lemma ExtendsTransitive(a: Acc, b: Acc, c: Acc)
    requires Extends(a, b) && Extends(b, c)
    ensures Extends(a, c)
  {
    assert a.files.Keys <= b.files.Keys <= c.files.Keys;
    assert c.files.Keys - a.files.Keys == (c.files.Keys - b.files.Keys) + (b.files.Keys - a.files.Keys);
    assert c.names - a.names == (c.names - b.names) + (b.names - a.names);
  }

  /** Nothing changed is a growth by nothing. */
  lemma ExtendsReflexive(a: Acc)
    ensures Extends(a, a)
  {
  }

  /** The artifacts of one message each add one fresh name and one new file. */
  lemma {:induction false} AddArtifactsExtends(acc: Acc, artifacts: seq<Artifact>, messageIndex: int, useDirectoryStructure: bool)
    requires Consistent(acc)
    ensures var after := AddArtifacts(acc, artifacts, messageIndex, useDirectoryStructure);
            && Consistent(after) && Extends(acc, after)
            && after.count == acc.count + |artifacts|
    decreases |artifacts|
  {
    if artifacts == [] {
      ExtendsReflexive(acc);
    } else {
      var init := artifacts[..|artifacts| - 1];
      var mid := AddArtifacts(acc, init, messageIndex, useDirectoryStructure);
      AddArtifactsExtends(acc, init, messageIndex, useDirectoryStructure);
      AddArtifactExtends(mid, artifacts[|artifacts| - 1], messageIndex, useDirectoryStructure);
      ExtendsTransitive(acc, mid, AddArtifacts(acc, artifacts, messageIndex, useDirectoryStructure));
    }
  }

  /**
   * The walk's effect on the state: the count grows by the number of
   * artifacts in the visited messages, and each of them becomes its own new
   * file under its own new name, with every earlier file kept.
   */
  lemma {:induction false} RunAllExtends(acc: Acc, visits: seq<Message>, useDirectoryStructure: bool)
    requires Consistent(acc)
    ensures var after := RunAll(acc, visits, useDirectoryStructure);
            && Consistent(after) && Extends(acc, after)
            && after.count == acc.count + ArtifactTotal(visits)
    decreases |visits|
  {
    if visits == [] {
      ExtendsReflexive(acc);
    } else {
      var m := visits[0];
      var mid := VisitNode(acc, m, useDirectoryStructure);
      if HasArtifacts(m) {
        AddArtifactsExtends(acc, ArtifactsIn(m.text), m.index, useDirectoryStructure);
      } else {
        ExtendsReflexive(acc);
      }
      RunAllExtends(mid, visits[1..], useDirectoryStructure);
      ExtendsTransitive(acc, mid, RunAll(acc, visits, useDirectoryStructure));
    }
  }

  /** A message past the depth limit is visited alone: its own artifacts count, its children are not visited. */
  lemma DepthCutoff(payload: Payload, m: Message, depth: nat)
    requires depth > MaxDepth
    ensures Preorder(payload, m, depth) == [m]
  {
  }

  /** Two lists of messages of the conversation, one after the other. */
  lemma ListedAppend(payload: Payload, a: seq<Message>, b: seq<Message>)
    requires Listed(payload, a) && Listed(payload, b)
    ensures Listed(payload, a + b)
  {
    forall x | x in a + b
      ensures x in payload.chatMessages
    {
      assert x in a || x in b;
    }
  }

  /** From a message of the conversation, the walk visits only messages of the conversation. */
  lemma PreorderListed(payload: Payload, m: Message, depth: nat)
    requires m in payload.chatMessages
    ensures Listed(payload, Preorder(payload, m, depth))
    decreases Budget(depth), 0
  {
    var rest := if depth > MaxDepth then [] else PreorderAll(payload, ChildrenOf(payload, m.uuid), depth + 1);
    if depth <= MaxDepth {
      ChildrenListed(payload, m.uuid);
      PreorderAllListed(payload, ChildrenOf(payload, m.uuid), depth + 1);
    }
    ListedAppend(payload, [m], rest);
  }

  /** The walks of children listed in the conversation visit only messages of the conversation. */
  lemma {:induction false} PreorderAllListed(payload: Payload, children: seq<Message>, depth: nat)
    requires Listed(payload, children)
    ensures Listed(payload, PreorderAll(payload, children, depth))
    decreases Budget(depth), |children| + 1
  {
    if children != [] {
      var init := children[..|children| - 1];
      var last := children[|children| - 1];
      assert Listed(payload, init) by {
        assert forall c :: c in init ==> c in children;
      }
      PreorderAllListed(payload, init, depth);
      PreorderListed(payload, last, depth);
      ListedAppend(payload, PreorderAll(payload, init, depth), Preorder(payload, last, depth));
    }
  }

  /** Within the limit, the walks of the children of `m` visit only messages of the conversation. */
  lemma ChildWalksListed(payload: Payload, m: Message, depth: nat)
    requires depth <= MaxDepth
    ensures Listed(payload, PreorderAll(payload, ChildrenOf(payload, m.uuid), depth + 1))
  {
    var children := ChildrenOf(payload, m.uuid);
    ChildrenListed(payload, m.uuid);
    PreorderAllListed(payload, children, depth + 1);
  }

  /** Within the limit, everything the walk visits after `m` is a message of the conversation. */
  lemma WalkListedWithin(payload: Payload, m: Message, depth: nat)
    requires depth <= MaxDepth
    ensures Listed(payload, Preorder(payload, m, depth)[1..])
  {
    PreorderRest(payload, m, depth);
    ChildWalksListed(payload, m, depth);
  }

  /**
   * Every message the walk visits after the start message is a message of
   * the conversation, whatever the start: the walk never leaves the
   * conversation it is given.
   */
  lemma WalkListed(payload: Payload, m: Message, depth: nat)
    ensures Listed(payload, Preorder(payload, m, depth)[1..])
  {
    if depth <= MaxDepth {
      WalkListedWithin(payload, m, depth);
    } else {
      PreorderRest(payload, m, depth);
    }
  }

  /**
   * A message that names itself as its parent, is listed once, and is the
   * only listed message whose parent is its `uuid`, is its own only child.
   */
  lemma SelfParentChildren(payload: Payload, m: Message)
    requires m.parentUuid == Some(m.uuid)
    requires multiset(payload.chatMessages)[m] == 1
    requires forall x :: x in payload.chatMessages && IsChildOf(x, m.uuid) ==> x == m
    ensures ChildrenOf(payload, m.uuid) == [m]
  {
    var r := ChildrenOf(payload, m.uuid);
    ChildrenOfSorted(payload, m.uuid);
    assert multiset(r) == multiset{m} by {
      forall x
        ensures multiset(r)[x] == multiset{m}[x]
      {
        if x != m && IsChildOf(x, m.uuid) {
          assert x !in payload.chatMessages;
        }
      }
    }
    assert |r| == 1 by {
      assert |multiset(r)| == |r|;
    }
    assert r[0] in multiset(r);
  }

  /** The walks of a single child are the walk of that child. */
  lemma PreorderAllSingle(payload: Payload, m: Message, depth: nat)
    ensures PreorderAll(payload, [m], depth) == Preorder(payload, m, depth)
  {
    assert [m][..0] == [];
  }

  /**
   * A message that names itself as its parent, is listed once, and is the
   * only listed message whose parent is its `uuid`: the walk from depth
   * `depth` visits that message once per level down to the limit,
   * `MaxDepth + 2 - depth` times, and then stops.
   */
  lemma {:induction false} SelfParentVisits(payload: Payload, m: Message, depth: nat)
    requires m.parentUuid == Some(m.uuid)
    requires multiset(payload.chatMessages)[m] == 1
    requires forall x :: x in payload.chatMessages && IsChildOf(x, m.uuid) ==> x == m
    requires depth <= MaxDepth + 1
    ensures var r := Preorder(payload, m, depth);
            |r| == MaxDepth + 2 - depth && forall i :: 0 <= i < |r| ==> r[i] == m
    decreases MaxDepth + 1 - depth
  {
    PreorderRest(payload, m, depth);
    if depth <= MaxDepth {
      SelfParentChildren(payload, m);
      PreorderAllSingle(payload, m, depth + 1);
      SelfParentVisits(payload, m, depth + 1);
    }
  }

  /** The zip being built: a map from file name to content, which `zip.file` updates in place. */
  class Archive {
    var files: map<string, string>

    /** An empty zip, as `new JSZip()` creates. */
    constructor ()
      ensures files == map[]
    {
      files := map[];
    }

    /** `zip.file(name, content)`: store `content` under `name`, replacing what was there. */
    method File(name: string, content: string)
      modifies this
      ensures files == old(files)[name := content]
    {
      files := files[name := content];
    }
  }

  /** Visiting `m` first, then the walks of its children unless `depth` is past the limit. */
  lemma RunAllPreorder(acc: Acc, payload: Payload, m: Message, depth: nat, useDirectoryStructure: bool)
    ensures RunAll(acc, Preorder(payload, m, depth), useDirectoryStructure)
         == RunAll(VisitNode(acc, m, useDirectoryStructure),
                   if depth > MaxDepth then [] else PreorderAll(payload, ChildrenOf(payload, m.uuid), depth + 1),
                   useDirectoryStructure)
  {
    PreorderRest(payload, m, depth);
  }

  /**
   * The state `processMessage` leaves, following its recursion: visit `m`,
   * then, unless `depth` is past the limit, walk its children in creation
   * order one level deeper.
   */
  function Walk(acc: Acc, payload: Payload, m: Message, depth: nat, useDirectoryStructure: bool): Acc
    decreases Budget(depth), 0
  {
    var visited := VisitNode(acc, m, useDirectoryStructure);
    if depth > MaxDepth then visited
    else WalkAll(visited, payload, ChildrenOf(payload, m.uuid), depth + 1, useDirectoryStructure)
  }

  /** The state the `forEach` over `children` leaves: the walk of each child, one after another, at `depth`. */
  function WalkAll(acc: Acc, payload: Payload, children: seq<Message>, depth: nat, useDirectoryStructure: bool): Acc
    decreases Budget(depth), |children|
  {
    if children == [] then acc
    else Walk(WalkAll(acc, payload, children[..|children| - 1], depth, useDirectoryStructure),
              payload, children[|children| - 1], depth, useDirectoryStructure)
  }

  /** Walking the first `i + 1` children is walking the first `i`, then child `i`. */
  lemma WalkAllStep(acc: Acc, payload: Payload, children: seq<Message>, i: nat, depth: nat, useDirectoryStructure: bool)
    requires i < |children|
    ensures WalkAll(acc, payload, children[..i + 1], depth, useDirectoryStructure)
         == Walk(WalkAll(acc, payload, children[..i], depth, useDirectoryStructure), payload, children[i], depth,
                 useDirectoryStructure)
  {
    assert children[..i + 1][..i] == children[..i];
  }

  /** Past the limit, the walk visits `m` alone. */
  lemma WalkCutoff(acc: Acc, payload: Payload, m: Message, depth: nat, useDirectoryStructure: bool)
    requires depth > MaxDepth
    ensures Walk(acc, payload, m, depth, useDirectoryStructure) == RunAll(acc, Preorder(payload, m, depth), useDirectoryStructure)
  {
    RunAllPreorder(acc, payload, m, depth, useDirectoryStructure);
  }

  /** Within the limit, the walk visits `m`, then the walks of its children one level deeper. */
  lemma WalkWithin(acc: Acc, payload: Payload, m: Message, depth: nat, useDirectoryStructure: bool)
    requires depth <= MaxDepth
    ensures Walk(acc, payload, m, depth, useDirectoryStructure) == RunAll(acc, Preorder(payload, m, depth), useDirectoryStructure)
    decreases Budget(depth), 0
  {
    var visited := VisitNode(acc, m, useDirectoryStructure);
    var children := ChildrenOf(payload, m.uuid);
    RunAllPreorder(acc, payload, m, depth, useDirectoryStructure);
    WalkAllIsRunAll(visited, payload, children, depth + 1, useDirectoryStructure);
  }

  /**
   * The recursive walk has the effect of visiting, one message after another,
   * the pre-order list of the messages it reaches.
   */
  lemma WalkIsRunAll(acc: Acc, payload: Payload, m: Message, depth: nat, useDirectoryStructure: bool)
    ensures Walk(acc, payload, m, depth, useDirectoryStructure) == RunAll(acc, Preorder(payload, m, depth), useDirectoryStructure)
    decreases Budget(depth), 1
  {
    if depth <= MaxDepth {
      WalkWithin(acc, payload, m, depth, useDirectoryStructure);
    } else {
      WalkCutoff(acc, payload, m, depth, useDirectoryStructure);
    }
  }

  /** The `forEach` over `children` has the effect of visiting the pre-order lists of their walks, one after another. */
  lemma {:induction false} WalkAllIsRunAll(acc: Acc, payload: Payload, children: seq<Message>, depth: nat,
                                           useDirectoryStructure: bool)
    ensures WalkAll(acc, payload, children, depth, useDirectoryStructure)
         == RunAll(acc, PreorderAll(payload, children, depth), useDirectoryStructure)
    decreases Budget(depth), |children| + 1
  {
    if children != [] {
      var init := children[..|children| - 1];
      var last := children[|children| - 1];
      WalkAllIsRunAll(acc, payload, init, depth, useDirectoryStructure);
      WalkIsRunAll(WalkAll(acc, payload, init, depth, useDirectoryStructure), payload, last, depth, useDirectoryStructure);
      RunAllAppend(acc, PreorderAll(payload, init, depth), Preorder(payload, last, depth), useDirectoryStructure);
    }
  }

  /** One artifact of the `forEach`: count it, pick a fresh name for it, and store it in the zip. */
  method AddArtifactFile(artifact: Artifact, messageIndex: int, zip: Archive, usedNames: NameSet,
                         artifactCount: int, useDirectoryStructure: bool)
    returns (count: int)
    modifies zip, usedNames
    ensures Acc(usedNames.names, zip.files, count)
         == AddArtifact(Acc(old(usedNames.names), old(zip.files), artifactCount), artifact, messageIndex,
                        useDirectoryStructure)
  {
    count := artifactCount + 1;
    var fileName := GetUniqueFileName(artifact.title, artifact.language, messageIndex, usedNames, useDirectoryStructure);
    zip.File(fileName, artifact.content);
  }

  /**
   * The `forEach` over the artifacts of a message: each is counted, given a
   * fresh name and stored in the zip under that name.
   */
  method AddArtifactFiles(artifacts: seq<Artifact>, messageIndex: int, zip: Archive, usedNames: NameSet,
                          artifactCount: int, useDirectoryStructure: bool)
    returns (count: int)
    modifies zip, usedNames
    ensures Acc(usedNames.names, zip.files, count)
         == AddArtifacts(Acc(old(usedNames.names), old(zip.files), artifactCount), artifacts, messageIndex,
                         useDirectoryStructure)
  {
    ghost var start := Acc(usedNames.names, zip.files, artifactCount);
    count := artifactCount;
    var artifactIndex := 0;
    while artifactIndex < |artifacts|
      invariant 0 <= artifactIndex <= |artifacts|
      invariant Acc(usedNames.names, zip.files, count)
             == AddArtifacts(start, artifacts[..artifactIndex], messageIndex, useDirectoryStructure)
    {
      AddArtifactsStep(start, artifacts, artifactIndex, messageIndex, useDirectoryStructure);
      count := AddArtifactFile(artifacts[artifactIndex], messageIndex, zip, usedNames, count, useDirectoryStructure);
      artifactIndex := artifactIndex + 1;
    }
    assert artifacts[..|artifacts|] == artifacts;
  }

  /** The artifacts of `message` go to the zip when it is an assistant message with text. */
  method AddMessageArtifacts(message: Message, zip: Archive, usedNames: NameSet, artifactCount: int,
                             useDirectoryStructure: bool)
    returns (count: int)
    modifies zip, usedNames
    ensures Acc(usedNames.names, zip.files, count)
         == VisitNode(Acc(old(usedNames.names), old(zip.files), artifactCount), message, useDirectoryStructure)
  {
    count := artifactCount;
    if HasArtifacts(message) {
      var artifacts := ExtractArtifacts(message.text);
      count := AddArtifactFiles(artifacts, message.index, zip, usedNames, artifactCount, useDirectoryStructure);
    }
  }

  /**
   * `processMessage`: add the artifacts of `message` when it is an assistant
   * message with text, then, unless `depth` is past the limit, walk its
   * children in creation order one level deeper; return the count.
   */
  method ProcessMessage(message: Message, payload: Payload, zip: Archive, usedNames: NameSet,
                        artifactCount: int, useDirectoryStructure: bool, depth: nat)
    returns (count: int)
    modifies zip, usedNames
    ensures Acc(usedNames.names, zip.files, count)
         == Walk(Acc(old(usedNames.names), old(zip.files), artifactCount), payload, message, depth,
                 useDirectoryStructure)
    decreases Budget(depth), 0
  {
    count := AddMessageArtifacts(message, zip, usedNames, artifactCount, useDirectoryStructure);
    if depth > MaxDepth {
      return;
    }
    var childMessages := ChildrenOf(payload, message.uuid);
    count := ProcessChildren(childMessages, payload, zip, usedNames, count, useDirectoryStructure, depth + 1);
  }

  /** The `forEach` over the sorted children: the walk of each child, one after another, at `depth`. */
  method ProcessChildren(children: seq<Message>, payload: Payload, zip: Archive, usedNames: NameSet,
                         artifactCount: int, useDirectoryStructure: bool, depth: nat)
    returns (count: int)
    modifies zip, usedNames
    ensures Acc(usedNames.names, zip.files, count)
         == WalkAll(Acc(old(usedNames.names), old(zip.files), artifactCount), payload, children, depth,
                    useDirectoryStructure)
    decreases Budget(depth), 1
  {
    ghost var start := Acc(usedNames.names, zip.files, artifactCount);
    count := artifactCount;
    var i := 0;
    while i < |children|
      invariant 0 <= i <= |children|
      invariant Acc(usedNames.names, zip.files, count)
             == WalkAll(start, payload, children[..i], depth, useDirectoryStructure)
    {
      WalkAllStep(start, payload, children, i, depth, useDirectoryStructure);
      count := ProcessMessage(children[i], payload, zip, usedNames, count, useDirectoryStructure, depth);
      i := i + 1;
    }
    assert children[..|children|] == children;
  }
}
