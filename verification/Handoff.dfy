/** The list of executable images handed from BL2 to the next stage (common/desc_image_load.c).

    The builder follows `next_handoff_image_id` from the first executable image and links the nodes embedded
    in the image descriptors.  It is proved to return exactly when the hand-off chain ends, and then with a
    list that is that chain, so that every later walk of the list ends. */
module Handoff {
  import opened Common

  /** The parts of `bl_mem_params_node_t` the builder reads. */
  datatype Desc = Desc(id: nat, executable: bool, firstExe: bool, nextId: nat)

  // ----- The chain, as a specification -----

  /** The index of the first descriptor with this id, or -1. */
  function IndexOf(descs: seq<Desc>, id: nat): (i: int)
    ensures -1 <= i < |descs|
    ensures i >= 0 ==> descs[i].id == id
    ensures forall j :: 0 <= j < (if i < 0 then |descs| else i) ==> descs[j].id != id
  {
    if descs == [] then -1
    else if descs[0].id == id then 0
    else var i := IndexOf(descs[1..], id); if i < 0 then -1 else i + 1
  }

  predicate IsHead(d: Desc) { d.executable && d.firstExe }

  /** The image to hand over to after descriptor `i`; an index the builder accepts is never zero. */
  ghost predicate Next(descs: seq<Desc>, i: nat, j: nat) {
    && i < |descs| && j < |descs|
    && descs[i].nextId != INVALID_IMAGE_ID && j > 0 && IndexOf(descs, descs[i].nextId) == j
  }

  ghost predicate LinkAt(descs: seq<Desc>, path: seq<nat>, k: nat) {
    0 < k < |path| && Next(descs, path[k - 1], path[k])
  }

  /** `path` starts at the first executable image and follows the hand-off ids over executable images. */
  ghost predicate Partial(descs: seq<Desc>, path: seq<nat>) {
    && path != []
    && (forall k :: 0 <= k < |path| ==> path[k] < |descs|)
    && IsHead(descs[path[0]]) && (forall j :: 0 <= j < path[0] ==> !IsHead(descs[j]))
    && (forall k :: 0 < k < |path| ==> LinkAt(descs, path, k))
    && (forall k :: 0 <= k < |path| - 1 ==> descs[path[k]].executable)
  }

  /** The whole chain: it ends with an executable image that names no successor. */
  ghost predicate IsChain(descs: seq<Desc>, path: seq<nat>) {
    && Partial(descs, path)
    && descs[path[|path| - 1]].executable && descs[path[|path| - 1]].nextId == INVALID_IMAGE_ID
  }

  /** No chain: it loops, leads to an image that is missing or not executable, or has no beginning. */
  ghost predicate Unending(descs: seq<Desc>) {
    forall chain :: !IsChain(descs, chain)
  }

  ghost predicate Distinct(s: seq<nat>) {
    forall i, j :: 0 <= i < j < |s| ==> s[i] != s[j]
  }

  /** Equal members of a path have equal successors. */
  lemma {:induction false} SameTail(descs: seq<Desc>, path: seq<nat>, i: nat, j: nat, m: nat)
    requires Partial(descs, path) && i < j && j + m < |path| && path[i] == path[j]
    ensures path[i + m] == path[j + m]
  {
    if m > 0 {
      SameTail(descs, path, i, j, m - 1);
      assert LinkAt(descs, path, i + m) && LinkAt(descs, path, j + m);
    }
  }

  /** A chain that ends never visits an image twice. */
  lemma ChainIsDistinct(descs: seq<Desc>, path: seq<nat>)
    requires IsChain(descs, path)
    ensures Distinct(path)
  {
    forall i, j | 0 <= i < j < |path|
      ensures path[i] != path[j]
    {
      var m := |path| - 1 - j;
      assert LinkAt(descs, path, i + m + 1);
      if path[i] == path[j] { SameTail(descs, path, i, j, m); }
    }
  }

  lemma {:induction false} Pigeonhole(s: seq<nat>, n: nat)
    requires Distinct(s) && forall i :: 0 <= i < |s| ==> s[i] < n
    ensures |s| <= n
    decreases n
  {
    assert s != [] ==> s[0] < n;
    if n > 0 {
      if n - 1 in s {
        var k :| 0 <= k < |s| && s[k] == n - 1;
        var rest := s[..k] + s[k + 1..];
        assert forall i :: 0 <= i < |rest| ==> rest[i] == s[if i < k then i else i + 1];
        Pigeonhole(rest, n - 1);
      } else {
        assert forall i :: 0 <= i < |s| ==> s[i] in s;
        Pigeonhole(s, n - 1);
      }
    }
  }

  /** The chain is unique: whatever path the builder has found so far is the beginning of it. */
  lemma {:induction false} ChainExtends(descs: seq<Desc>, path: seq<nat>, chain: seq<nat>, n: nat)
    requires Partial(descs, path) && IsChain(descs, chain) && n < |path|
    ensures n < |chain| && chain[n] == path[n]
  {
    if n > 0 {
      ChainExtends(descs, path, chain, n - 1);
      assert LinkAt(descs, path, n);
      assert n < |chain|;
      assert LinkAt(descs, chain, n);
    }
  }

  /** There are at most as many links as descriptors. */
  lemma ChainLength(descs: seq<Desc>, chain: seq<nat>)
    requires IsChain(descs, chain)
    ensures |chain| <= |descs|
  {
    ChainIsDistinct(descs, chain);
    Pigeonhole(chain, |descs|);
  }

  // ----- Why there is no chain when the builder stops -----

  lemma NotExecutable(descs: seq<Desc>, path: seq<nat>)
    requires Partial(descs, path) && !descs[path[|path| - 1]].executable
    ensures Unending(descs)
  {
    forall chain | IsChain(descs, chain)
      ensures false
    {
      ChainExtends(descs, path, chain, |path| - 1);
    }
  }

  lemma Revisited(descs: seq<Desc>, path: seq<nat>)
    requires Partial(descs, path) && !Distinct(path)
    ensures Unending(descs)
  {
    var i, j :| 0 <= i < j < |path| && path[i] == path[j];
    forall chain | IsChain(descs, chain)
      ensures false
    {
      ChainIsDistinct(descs, chain);
      ChainExtends(descs, path, chain, i);
      ChainExtends(descs, path, chain, j);
    }
  }

  lemma ChainGoesOn(descs: seq<Desc>, chain: seq<nat>, n: nat)
    requires IsChain(descs, chain) && n < |chain| && descs[chain[n]].nextId != INVALID_IMAGE_ID
    ensures IndexOf(descs, descs[chain[n]].nextId) > 0
  {
    assert LinkAt(descs, chain, n + 1);
  }

  lemma NoSuccessor(descs: seq<Desc>, path: seq<nat>)
    requires Partial(descs, path)
    requires var d := descs[path[|path| - 1]];
             d.nextId != INVALID_IMAGE_ID && IndexOf(descs, d.nextId) <= 0
    ensures Unending(descs)
  {
    forall chain | IsChain(descs, chain)
      ensures false
    {
      ChainExtends(descs, path, chain, |path| - 1);
      ChainGoesOn(descs, chain, |path| - 1);
    }
  }

  lemma TooLong(descs: seq<Desc>, path: seq<nat>)
    requires Partial(descs, path) && |path| > |descs|
    ensures Unending(descs)
  {
    forall chain | IsChain(descs, chain)
      ensures false
    {
      ChainLength(descs, chain);
      ChainExtends(descs, path, chain, |path| - 1);
    }
  }

  lemma NoHead(descs: seq<Desc>)
    requires forall j :: 0 <= j < |descs| ==> !IsHead(descs[j])
    ensures Unending(descs)
  {
  }

  lemma Step(descs: seq<Desc>, path: seq<nat>, link: nat)
    requires Partial(descs, path) && Next(descs, path[|path| - 1], link) && descs[path[|path| - 1]].executable
    ensures Partial(descs, path + [link])
  {
    var path' := path + [link];
    forall k | 0 < k < |path'|
      ensures LinkAt(descs, path', k)
    {
      if k < |path| { assert LinkAt(descs, path, k); }
    }
  }

  // ----- The list in memory -----

  /** `bl_params_node_t`; `desc` stands for the pointers to the image and entry point information. */
  class ParamsNode {
    var imageId: nat
    var desc: nat
    var next: ParamsNode?

    constructor ()
      ensures next == null
    {
      imageId, desc, next := 0, 0, null;
    }
  }

  /** From `head` the links lead over exactly the nodes of `path`, in order, to null. */
  ghost predicate Lists(nodes: seq<ParamsNode>, descs: seq<Desc>, head: ParamsNode?, path: seq<nat>)
    reads nodes
  {
    && |nodes| == |descs|
    && (forall k :: 0 <= k < |path| ==> path[k] < |nodes|)
    && (if path == [] then head == null else head == nodes[path[0]])
    && (forall k :: 0 <= k < |path| ==>
          && nodes[path[k]].imageId == descs[path[k]].id && nodes[path[k]].desc == path[k]
          && nodes[path[k]].next == if k + 1 < |path| then nodes[path[k + 1]] else null)
  }

  datatype Outcome = NoImages | Built | Stopped

  datatype Visiting = GoOn(next: nat) | Finished | Failed

  /** The descriptor table with the nodes embedded in it, and the head of the list. */
  class Table {
    const descs: seq<Desc>
    const nodes: seq<ParamsNode>
    var head: ParamsNode?

    constructor (descs: seq<Desc>, nodes: seq<ParamsNode>)
      requires |nodes| == |descs| && |descs| < INVALID_IMAGE_ID
      requires forall i, j :: 0 <= i < j < |nodes| ==> nodes[i] != nodes[j]
      ensures Valid() && this.descs == descs && this.nodes == nodes && head == null
    {
      this.descs, this.nodes, head := descs, nodes, null;
    }

    ghost predicate Valid()
      reads this
    {
      && |nodes| == |descs| && |descs| < INVALID_IMAGE_ID
      && forall i, j :: 0 <= i < j < |nodes| ==> nodes[i] != nodes[j]
    }

    /** Static data before the first call. */
    ghost predicate Untouched()
      reads this, nodes
    {
      head == null && forall i :: 0 <= i < |nodes| ==> nodes[i].next == null
    }

    /** get_bl_params_node_index */
    method NodeIndex(id: nat) returns (index: int)
      ensures index == IndexOf(descs, id)
    {
      index := 0;
      while index < |descs|
        invariant 0 <= index <= |descs|
        invariant forall j :: 0 <= j < index ==> descs[j].id != id
      {
        if descs[index].id == id { return; }
        index := index + 1;
      }
      index := -1;
    }

    /** get_next_bl_params_from_mem_params_desc.  A failed assertion stops the machine.  The builder returns a
        list exactly if the hand-off chain ends, and the list is that chain. */
    method BuildParams() returns (r: Outcome, ghost path: seq<nat>)
      requires Valid() && Untouched()
      modifies this, nodes
      ensures r == NoImages <==> descs == []
      ensures r == Built ==> IsChain(descs, path) && Lists(nodes, descs, head, path)
      ensures r == Stopped ==> Unending(descs)
    {
      path := [];
      if |descs| == 0 { return NoImages, path; }

      var count, link := 0, 0;
      while count < |descs|
        invariant 0 <= count <= |descs| && head == null
        invariant forall j :: 0 <= j < count ==> !IsHead(descs[j])
      {
        if IsHead(descs[count]) {
          head := nodes[count];
          link := count;
          break;
        }
        count := count + 1;
      }
      if head == null {
        NoHead(descs);
        return Stopped, path;
      }
      r, path := LinkParams(link);
    }

    /** Fill in the node of descriptor `link` and hang it behind the previous one.  Not ok if that one has a
        successor already: then the image before `link` was visited twice. */
    method FillNode(link: nat, last: ParamsNode?, ghost path: seq<nat>, ghost count: nat) returns (ok: bool)
      requires Valid() && count < |path| && Linked(path, count) && path[count] == link
      requires last == if count == 0 then null else nodes[path[count - 1]]
      modifies nodes
      ensures ok ==> Linked(path, count + 1)
      ensures !ok ==> !Distinct(path)
    {
      var current := nodes[link];
      current.imageId := descs[link].id;
      current.desc := link;
      if last != null {
        if last.next != null {
          assert path[count - 1] in path[..count - 1];
          return false;
        }
        last.next := current;
        assert path[count - 1] in path[..count];
      }
      return true;
    }

    /** The second loop: follow the hand-off ids and link the nodes. */
    method LinkParams(start: nat) returns (r: Outcome, ghost path: seq<nat>)
      requires Valid() && start < |descs| && head == nodes[start]
      requires IsHead(descs[start]) && forall j :: 0 <= j < start ==> !IsHead(descs[j])
      requires forall i :: 0 <= i < |nodes| ==> nodes[i].next == null
      modifies nodes
      ensures r == Built || r == Stopped
      ensures r == Built ==> IsChain(descs, path) && Lists(nodes, descs, head, path)
      ensures r == Stopped ==> Unending(descs)
    {
      var count, link := 0, start;
      var last: ParamsNode? := null;
      path := [start];
      while count < |descs|
        invariant 0 <= count <= |descs| && |path| == count + 1
        invariant Partial(descs, path) && path[0] == start && path[count] == link
        invariant last == if count == 0 then null else nodes[path[count - 1]]
        invariant Linked(path, count)
      {
        var v := Visit(link, last, path, count);
        match v {
          case Failed => return Stopped, path;
          case Finished => return Built, path;
          case GoOn(next) =>
            last := nodes[link];
            link := next;
            path := path + [next];
            count := count + 1;
        }
      }
      TooLong(descs, path);
      return Stopped, path;
    }

    /** The body of the loop. */
    method Visit(link: nat, last: ParamsNode?, ghost path: seq<nat>, ghost count: nat) returns (v: Visiting)
      requires Valid() && |path| == count + 1 && Linked(path, count) && path[count] == link
      requires Partial(descs, path) && last == if count == 0 then null else nodes[path[count - 1]]
      modifies nodes
      ensures v.GoOn? ==> v.next < |descs| && Partial(descs, path + [v.next]) && Linked(path + [v.next], count + 1)
      ensures v.Finished? ==> IsChain(descs, path) && Lists(nodes, descs, nodes[path[0]], path)
      ensures v.Failed? ==> Unending(descs)
    {
      if !descs[link].executable {
        NotExecutable(descs, path);
        return Failed;
      }
      var ok := FillNode(link, last, path, count);
      if !ok {
        Revisited(descs, path);
        return Failed;
      }
      var imgId := descs[link].nextId;
      if imgId == INVALID_IMAGE_ID {
        ChainIsDistinct(descs, path);
        LinkedIsList(path);
        return Finished;
      }
      var next := NodeIndex(imgId);
      if next <= 0 {
        NoSuccessor(descs, path);
        return Failed;
      }
      Step(descs, path, next);
      LinkedExtends(path, count + 1, next);
      return GoOn(next);
    }

    lemma LinkedIsList(path: seq<nat>)
      requires Valid() && path != [] && Linked(path, |path|) && Distinct(path)
      ensures Lists(nodes, descs, nodes[path[0]], path)
    {
      assert path[|path| - 1] !in path[..|path| - 1];
    }

    lemma LinkedExtends(path: seq<nat>, count: nat, link: nat)
      requires Valid() && Linked(path, count) && link < |nodes|
      ensures Linked(path + [link], count)
    {
      var n := if count == 0 then 0 else count - 1;
      assert (path + [link])[..n] == path[..n];
    }

    /** The first `count` members of the path are filled in, all but the last of them linked to their
        successors; no other node is linked. */
    ghost predicate Linked(path: seq<nat>, count: nat)
      requires Valid()
      reads this, nodes
    {
      && count <= |path| && (forall k :: 0 <= k < |path| ==> path[k] < |nodes|)
      && (forall k :: 0 <= k < count ==> nodes[path[k]].imageId == descs[path[k]].id && nodes[path[k]].desc == path[k])
      && (forall k :: 0 <= k < count - 1 ==> nodes[path[k]].next == nodes[path[k + 1]])
      && (forall i :: 0 <= i < |nodes| && nodes[i].next != null ==> i in path[..if count == 0 then 0 else count - 1])
    }
  }

  // ----- Walking the list -----

  /** The position of the last node of the path with this id, or -1. */
  function LastWith(descs: seq<Desc>, path: seq<nat>, id: nat): (k: int)
    requires forall k :: 0 <= k < |path| ==> path[k] < |descs|
    ensures -1 <= k < |path|
    ensures k >= 0 ==> descs[path[k]].id == id
    ensures forall j :: k < j < |path| ==> descs[path[j]].id != id
  {
    if path == [] then -1
    else if descs[path[|path| - 1]].id == id then |path| - 1
    else LastWith(descs, path[..|path| - 1], id)
  }

  /** The loop of bl31_params_parse_helper for one wanted id: it ends on every list the builder returns, and
      finds the entry point of the last image with that id. */
  method FindEntryPoint(nodes: seq<ParamsNode>, descs: seq<Desc>, head: ParamsNode?, id: nat, ghost path: seq<nat>)
    returns (found: bool, desc: nat)
    requires Lists(nodes, descs, head, path)
    ensures found <==> LastWith(descs, path, id) >= 0
    ensures found ==> desc == path[LastWith(descs, path, id)]
  {
    found, desc := false, 0;
    var node := head;
    ghost var k := 0;
    while node != null
      invariant k <= |path| && node == if k < |path| then nodes[path[k]] else null
      invariant found <==> LastWith(descs, path[..k], id) >= 0
      invariant found ==> desc == path[LastWith(descs, path[..k], id)]
      decreases |path| - k
    {
      if node.imageId == id {
        found, desc := true, node.desc;
      }
      node := node.next;
      assert path[..k + 1][..k] == path[..k];
      k := k + 1;
    }
    assert path[..k] == path;
  }
}
