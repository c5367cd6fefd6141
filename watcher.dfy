/**
 * The part of the content script that finds file inputs and attaches to
 * them: the sweep of the whole page, the MutationObserver callback that
 * walks every added element, and the start-up and message handling that
 * decide when those run.
 */
module Watcher {
  import opened Settings
  import opened Control

  /**
   * A DOM node: a non-element node (text, comment), an element that is not
   * `input[type="file"]` with its children, or a file input (a void
   * element, so without children).
   */
  datatype Node = NonElement | Element(children: seq<Node>) | FileInputElement(control: FileInput)

  /** A MutationObserver record: a childList record lists the added nodes. */
  datatype Mutation = ChildList(addedNodes: seq<Node>) | OtherMutation

  /** The file inputs of a forest in document order, each node before its descendants. */
  function Inputs(forest: seq<Node>): seq<FileInput>
    decreases forest
  {
    if forest == [] then []
    else
      var n := forest[0];
      var own := match n
        case NonElement => []
        case Element(children) => Inputs(children)
        case FileInputElement(c) => [c];
      own + Inputs(forest[1..])
  }

  /** `node.querySelectorAll('input[type="file"]')`: the file inputs strictly below `n`. */
  function Descendants(n: Node): seq<FileInput>
  {
    if n.Element? then Inputs(n.children) else []
  }

  /** The added element itself when it matches `input[type="file"]`. */
  function Itself(n: Node): seq<FileInput>
  {
    if n.FileInputElement? then [n.control] else []
  }

  /** Everything one observer batch attaches to: for each added node, itself and its descendants. */
  function Targets(batch: seq<Mutation>): seq<FileInput>
  {
    if batch == [] then []
    else (if batch[0].ChildList? then Inputs(batch[0].addedNodes) else []) + Targets(batch[1..])
  }

  /** `document.querySelectorAll('input[type="file"]')` on a page whose root is `page`. */
  function PageInputs(page: Node): seq<FileInput>
  {
    Inputs([page])
  }

  /** A node's inputs are the node itself, when it is a file input, followed by its descendants. */
  lemma InputsOfNode(n: Node)
    ensures Inputs([n]) == Itself(n) + Descendants(n)
  {
    assert [n][0] == n && [n][1..] == [];
  }

  /** The inputs of a concatenated forest are those of its parts in order. */
  lemma {:induction false} InputsAppend(a: seq<Node>, b: seq<Node>)
    ensures Inputs(a + b) == Inputs(a) + Inputs(b)
    decreases a
  {
    if a == [] {
      assert a + b == b;
    } else {
      assert (a + b)[0] == a[0] && (a + b)[1..] == a[1..] + b;
      InputsAppend(a[1..], b);
    }
  }

  /** The inputs of one more added node extend those of the nodes before it. */
  lemma InputsStep(nodes: seq<Node>, j: nat)
    requires j < |nodes|
    ensures Inputs(nodes[..j + 1]) == Inputs(nodes[..j]) + Itself(nodes[j]) + Descendants(nodes[j])
  {
    assert nodes[..j + 1] == nodes[..j] + [nodes[j]];
    InputsAppend(nodes[..j], [nodes[j]]);
    InputsOfNode(nodes[j]);
  }

  lemma {:induction false} TargetsAppend(a: seq<Mutation>, b: seq<Mutation>)
    ensures Targets(a + b) == Targets(a) + Targets(b)
  {
    if a == [] {
      assert a + b == b;
    } else {
      assert (a + b)[0] == a[0] && (a + b)[1..] == a[1..] + b;
      TargetsAppend(a[1..], b);
    }
  }

  /** The targets of one more mutation record extend those of the records before it. */
  lemma TargetsStep(batch: seq<Mutation>, i: nat)
    requires i < |batch|
    ensures Targets(batch[..i + 1]) == Targets(batch[..i])
      + (if batch[i].ChildList? then Inputs(batch[i].addedNodes) else [])
  {
    var m := batch[i];
    assert batch[..i + 1] == batch[..i] + [m];
    TargetsAppend(batch[..i], [m]);
    assert [m][0] == m && [m][1..] == [];
  }

  /** The added file input itself and every file input below an added node are among the inputs of the added nodes. */
  lemma InputsCover(nodes: seq<Node>, j: nat)
    requires j < |nodes|
    ensures forall x :: x in Itself(nodes[j]) ==> x in Inputs(nodes)
    ensures forall x :: x in Descendants(nodes[j]) ==> x in Inputs(nodes)
  {
    var n := nodes[j];
    assert nodes == nodes[..j] + [n] + nodes[j + 1..];
    InputsAppend(nodes[..j] + [n], nodes[j + 1..]);
    InputsAppend(nodes[..j], [n]);
    InputsOfNode(n);
  }

  /**
   * An added subtree is reached completely: the added file input itself and
   * every file input below an added element are among the batch's targets.
   */
  lemma TargetsCover(batch: seq<Mutation>, i: nat, j: nat)
    requires i < |batch| && batch[i].ChildList? && j < |batch[i].addedNodes|
    ensures forall x :: x in Itself(batch[i].addedNodes[j]) ==> x in Targets(batch)
    ensures forall x :: x in Descendants(batch[i].addedNodes[j]) ==> x in Targets(batch)
  {
    RecordCover(batch, i);
    InputsCover(batch[i].addedNodes, j);
  }

  /** The inputs under the nodes of one childList record are among the batch's targets. */
  lemma RecordCover(batch: seq<Mutation>, i: nat)
    requires i < |batch| && batch[i].ChildList?
    ensures forall x :: x in Inputs(batch[i].addedNodes) ==> x in Targets(batch)
  {
    var m := batch[i];
    assert batch == batch[..i] + [m] + batch[i + 1..];
    TargetsAppend(batch[..i] + [m], batch[i + 1..]);
    TargetsAppend(batch[..i], [m]);
    assert Targets([m]) == Inputs(m.addedNodes) by {
      assert [m][0] == m && [m][1..] == [];
    }
  }

  /** The inputs found in an allocated forest are allocated. */
  lemma {:induction false} InputsAllocated(forest: seq<Node>)
    requires allocated(forest)
    ensures forall x :: x in Inputs(forest) ==> allocated(x)
    decreases forest
  {
    if forest != [] {
      var n := forest[0];
      assert allocated(n);
      if n.Element? {
        InputsAllocated(n.children);
      }
      InputsAllocated(forest[1..]);
    }
  }

  /** The targets of an allocated batch are allocated. */
  lemma {:induction false} TargetsAllocated(batch: seq<Mutation>)
    requires allocated(batch)
    ensures forall x :: x in Targets(batch) ==> allocated(x)
  {
    if batch != [] {
      if batch[0].ChildList? {
        InputsAllocated(batch[0].addedNodes);
      }
      TargetsAllocated(batch[1..]);
    }
  }

  /** Every member of `xs` is a consistent file input. */
  predicate AllValid(xs: seq<FileInput>)
    reads xs
  {
    forall x :: x in xs ==> x.Valid()
  }

  /** Every member of `xs` is a consistent file input that is marked attached. */
  predicate AllAttached(xs: seq<FileInput>)
    reads xs
  {
    forall x :: x in xs ==> x.Valid() && x.attached
  }

  /**
   * Attach to each input of `inputs` in turn, as `forEach` over a
   * `querySelectorAll` result does. Afterwards all are attached; an input
   * that was attached before is left exactly as it was; no input's files,
   * events or messages change.
   */
  method AttachAll(inputs: seq<FileInput>)
    requires AllValid(inputs)
    modifies inputs
    ensures AllAttached(inputs)
    ensures forall x :: x in inputs ==> x.Snapshot() == old(x.Snapshot())
    ensures forall x :: x in inputs && old(x.attached) ==> unchanged(x)
  {
    for k := 0 to |inputs|
      invariant AllValid(inputs)
      invariant AllAttached(inputs[..k])
      invariant forall x :: x in inputs ==> x.Snapshot() == old(x.Snapshot())
      invariant forall x :: x in inputs && old(x.attached) ==> unchanged(x)
    {
      inputs[k].Attach();
    }
    assert inputs[..|inputs|] == inputs;
  }

  /**
   * The MutationObserver callback: for each childList record, attach to
   * the nodes it adds.
   */
  method ObserveBatch(batch: seq<Mutation>)
    requires AllValid(Targets(batch))
    modifies Targets(batch)
    ensures AllAttached(Targets(batch))
    ensures forall x :: x in Targets(batch) ==> x.Snapshot() == old(x.Snapshot())
    ensures forall x :: x in Targets(batch) && old(x.attached) ==> unchanged(x)
  {
    ghost var all := Targets(batch);
    TargetsAllocated(batch);
    for i := 0 to |batch|
      invariant forall x :: x in all ==> old(allocated(x))
      invariant AllValid(all)
      invariant AllAttached(Targets(batch[..i]))
      invariant forall x :: x in all ==> x.Snapshot() == old(x.Snapshot())
      invariant forall x :: x in all && old(x.attached) ==> unchanged(x)
    {
      TargetsAllocated(batch[..i]);
      TargetsStep(batch, i);
      if batch[i].ChildList? {
        RecordCover(batch, i);
        ghost var inputs := Inputs(batch[i].addedNodes);
        assert forall k :: 0 <= k < |inputs| ==> inputs[k] in Targets(batch);
        AttachAdded(batch[i].addedNodes);
      }
    }
    assert batch[..|batch|] == batch;
  }

  /**
   * The walk over one record's added nodes: an added element that is a
   * file input is attached, and so is every file input below an added
   * element; non-element nodes are skipped.
   */
  method AttachAdded(added: seq<Node>)
    requires AllValid(Inputs(added))
    modifies Inputs(added)
    ensures AllAttached(Inputs(added))
    ensures forall x :: x in Inputs(added) ==> x.Snapshot() == old(x.Snapshot())
    ensures forall x :: x in Inputs(added) && old(x.attached) ==> unchanged(x)
  {
    ghost var all := Inputs(added);
    InputsAllocated(added);
    for j := 0 to |added|
      invariant forall x :: x in all ==> old(allocated(x))
      invariant AllValid(all)
      invariant AllAttached(Inputs(added[..j]))
      invariant forall x :: x in all ==> x.Snapshot() == old(x.Snapshot())
      invariant forall x :: x in all && old(x.attached) ==> unchanged(x)
    {
      InputsAllocated(added[..j]);
      InputsStep(added, j);
      InputsCover(added, j);
      ghost var reached := Itself(added[j]) + Descendants(added[j]);
      assert forall k :: 0 <= k < |reached| ==> reached[k] in Inputs(added);
      AttachNode(added[j]);
    }
    assert added[..|added|] == added;
  }

  /**
   * One added node: a file input is attached itself; for an element, every
   * file input below it is attached; other nodes are skipped.
   */
  method AttachNode(node: Node)
    requires AllValid(Itself(node) + Descendants(node))
    modifies Itself(node) + Descendants(node)
    ensures AllAttached(Itself(node) + Descendants(node))
    ensures forall x :: x in Itself(node) + Descendants(node) ==> x.Snapshot() == old(x.Snapshot())
    ensures forall x :: x in Itself(node) + Descendants(node) && old(x.attached) ==> unchanged(x)
  {
    if node.FileInputElement? {
      assert Itself(node) + Descendants(node) == [node.control];
      assert node.control in Itself(node) + Descendants(node);
      node.control.Attach();
    } else if node.Element? {
      assert Itself(node) + Descendants(node) == Inputs(node.children);
      AttachAll(Inputs(node.children));
    }
  }

  /** A `chrome.runtime.onMessage` message: its `action` and `enabled` fields. */
  datatype Message = Message(action: string, enabled: bool)

  /**
   * The content script's own state: how many MutationObservers it has
   * registered. Each enabling toggle registers one more, and every one of
   * them runs the callback on each batch.
   */
  class ContentScript {
    var observers: nat

    constructor ()
      ensures observers == 0
    {
      observers := 0;
    }

    /**
     * `initialize`: unless the stored flag is exactly false, attach to every
     * file input on the page and start observing.
     */
    method Initialize(stored: StoredValue, page: Node)
      requires AllValid(PageInputs(page))
      modifies this, PageInputs(page)
      ensures IsEnabled(stored) ==> AllAttached(PageInputs(page)) && observers == old(observers) + 1
      ensures !IsEnabled(stored) ==>
        observers == old(observers) && forall x :: x in PageInputs(page) ==> unchanged(x)
      ensures forall x :: x in PageInputs(page) ==> x.Valid() && x.Snapshot() == old(x.Snapshot())
    {
      if IsEnabled(stored) {
        AttachAll(PageInputs(page));
        observers := observers + 1;
      }
    }

    /**
     * The `onMessage` listener: `toggleExtension` sweeps and observes when
     * enabling (disabling detaches nothing) and answers `{success: true}`;
     * any other action is ignored and gets no answer.
     */
    method OnMessage(msg: Message, page: Node) returns (responded: bool)
      requires AllValid(PageInputs(page))
      modifies this, PageInputs(page)
      ensures responded <==> msg.action == "toggleExtension"
      ensures responded && msg.enabled ==> AllAttached(PageInputs(page)) && observers == old(observers) + 1
      ensures !(responded && msg.enabled) ==>
        observers == old(observers) && forall x :: x in PageInputs(page) ==> unchanged(x)
      ensures forall x :: x in PageInputs(page) ==> x.Valid() && x.Snapshot() == old(x.Snapshot())
    {
      responded := false;
      if msg.action == "toggleExtension" {
        if msg.enabled {
          AttachAll(PageInputs(page));
          observers := observers + 1;
        }
        responded := true;
      }
    }

    /** A batch of mutations reaches every registered observer, each running the callback. */
    method OnMutations(batch: seq<Mutation>)
      requires AllValid(Targets(batch))
      modifies Targets(batch)
      ensures observers > 0 ==> AllAttached(Targets(batch))
      ensures observers == 0 ==> forall x :: x in Targets(batch) ==> unchanged(x)
      ensures forall x :: x in Targets(batch) ==> x.Valid() && x.Snapshot() == old(x.Snapshot())
    {
      TargetsAllocated(batch);
      for k := 0 to observers
        invariant forall x :: x in Targets(batch) ==> old(allocated(x))
        invariant AllValid(Targets(batch))
        invariant k > 0 ==> AllAttached(Targets(batch))
        invariant k == 0 ==> forall x :: x in Targets(batch) ==> unchanged(x)
        invariant forall x :: x in Targets(batch) ==> x.Snapshot() == old(x.Snapshot())
      {
        ObserveBatch(batch);
      }
    }
  }
}
