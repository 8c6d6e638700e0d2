/** The dereferencer of config/schema/schema2.go over a heap of schema nodes: definitions are deep
    copied, nodes are overwritten in place, inlined definitions are cached and shared, and a stack of
    names cuts cycles. */
module Dereference {
  import opened SchemaTree

  class Node {
    var ref: string
    var note: Note
    var keywords: string
    var children: map<Slot, Node>

    ghost var tree: Tree        // the schema this node denotes
    ghost var parts: set<Node>  // the node and all its descendants, while it is an unshared tree

    constructor (ref: string, note: Note, keywords: string, children: map<Slot, Node>,
                 ghost tree: Tree, ghost below: set<Node>)
      ensures this.ref == ref && this.note == note && this.keywords == keywords && this.children == children
      ensures this.tree == tree && this.parts == below + {this}
    {
      this.ref, this.note, this.keywords, this.children := ref, note, keywords, children;
      this.tree, this.parts := tree, below + {this};
    }
  }

  ghost predicate FieldsAgree(n: Node)
    reads n
  {
    && n.tree == Tree(n.ref, n.note, n.keywords, n.tree.kids)
    && n.children.Keys == n.tree.kids.Keys
  }

  /** Nodes that denote their trees and point only among themselves; they may share children. */
  ghost predicate Frozen(nodes: set<Node>)
    reads nodes
  {
    forall n :: n in nodes ==>
      && FieldsAgree(n)
      && forall s :: s in n.children ==> n.children[s] in nodes && n.children[s].tree == n.tree.kids[s]
  }

  ghost predicate WholePart(n: Node)
    reads n, n.parts
  {
    && n in n.parts && FieldsAgree(n)
    && (forall m :: m in n.parts ==> m.parts <= n.parts)
    && (forall s :: s in n.children ==>
         && n.children[s] in n.parts && n.children[s].parts <= n.parts - {n}
         && n.children[s].tree == n.tree.kids[s])
    && (forall s, s' :: s in n.children && s' in n.children && s != s' ==>
         n.children[s].parts !! n.children[s'].parts)
  }

  /** `t` is the root of an unshared tree of nodes that denotes `t.tree`. */
  ghost predicate Whole(t: Node)
    reads t, t.parts
  {
    t in t.parts && forall n :: n in t.parts ==> n.parts <= t.parts && WholePart(n)
  }

  lemma WholeChild(t: Node, s: Slot)
    requires Whole(t) && s in t.children
    ensures Whole(t.children[s]) && s in t.tree.kids && t.children[s].tree == t.tree.kids[s]
  {
  }

  lemma WholeRoot(t: Node)
    requires Whole(t)
    ensures FieldsAgree(t)
  {
  }

  /** Disjoint unshared trees, one per slot, made of the nodes `below`. */
  ghost predicate Forest(children: map<Slot, Node>, below: set<Node>)
    reads below
  {
    && (forall n :: n in below ==> n.parts <= below && WholePart(n))
    && (forall s :: s in children ==> children[s] in below && children[s].parts <= below)
    && (forall s, s' :: s in children && s' in children && s != s' ==> children[s].parts !! children[s'].parts)
  }

  lemma Grow(children: map<Slot, Node>, below: set<Node>, s: Slot, child: Node)
    requires Forest(children, below) && s !in children && Whole(child) && child.parts !! below
    ensures Forest(children[s := child], below + child.parts)
  {
    hide WholePart;
    assert child in child.parts;
  }

  /** deepcopy.Copy: a fresh tree of nodes denoting the same schema. */
  method DeepCopy(t: Node) returns (copy: Node)
    requires Whole(t)
    ensures Whole(copy) && fresh(copy.parts) && copy.tree == t.tree
    decreases t.tree
  {
    hide Forest, WholePart, Whole;
    WholeRoot(t);
    var todo := t.children.Keys;
    var children: map<Slot, Node> := map[];
    ghost var below: set<Node> := {};
    Sprout(below);
    while todo != {}
      invariant todo <= t.children.Keys && children.Keys == t.children.Keys - todo
      invariant fresh(below) && Forest(children, below)
      invariant forall s :: s in children ==> children[s].tree == t.tree.kids[s]
    {
      var s :| s in todo;
      WholeChild(t, s);
      var child := DeepCopy(t.children[s]);
      Grow(children, below, s, child);
      children := children[s := child];
      below := below + child.parts;
      todo := todo - {s};
    }
    copy := CopyRoot(t, children, below);
  }

  lemma Sprout(below: set<Node>)
    requires below == {}
    ensures Forest(map[], below)
  {
  }

  method CopyRoot(t: Node, children: map<Slot, Node>, ghost below: set<Node>) returns (copy: Node)
    requires FieldsAgree(t) && Forest(children, below) && children.Keys == t.children.Keys
    requires forall s :: s in children ==> children[s].tree == t.tree.kids[s]
    ensures fresh(copy) && Whole(copy) && copy.parts == below + {copy} && copy.tree == t.tree
  {
    copy := new Node(t.ref, t.note, t.keywords, children, t.tree, below);
  }

  class Resolver {
    const definitions: map<string, Node>
    var cache: map<string, Node>
    var depthMap: set<string>

    ghost const trees: Definitions       // what the definitions denote
    ghost const defNodes: set<Node>      // the nodes of the definitions
    ghost var frozen: set<Node>          // nodes handed out or cached; never written again

    constructor (definitions: map<string, Node>, ghost trees: Definitions, ghost defNodes: set<Node>)
      requires definitions.Keys == trees.Keys
      requires forall q :: q in definitions ==>
        Whole(definitions[q]) && definitions[q].parts <= defNodes && definitions[q].tree == trees[q]
      ensures Valid() && depthMap == {} && frozen == {}
      ensures this.trees == trees && this.defNodes == defNodes
    {
      this.definitions, this.trees, this.defNodes := definitions, trees, defNodes;
      cache, depthMap, frozen := map[], {}, {};
    }

    ghost predicate DefinitionsDenote()
      reads defNodes
    {
      && definitions.Keys == trees.Keys
      && forall q :: q in definitions ==>
           && definitions[q] in defNodes && definitions[q].parts <= defNodes
           && Whole(definitions[q]) && definitions[q].tree == trees[q]
    }

    /** Every cached node is its definition with all children dereferenced, whatever the stack was
        when it was computed. */
    ghost predicate CacheIsProcessed()
      reads `cache, `frozen, frozen
    {
      forall q :: q in cache ==> q in trees && cache[q] in frozen && Processed(trees, trees[q], cache[q].tree)
    }

    ghost predicate Valid()
      reads `cache, `frozen, frozen, defNodes
    {
      && DefinitionsDenote()
      && frozen !! defNodes
      && Frozen(frozen)
      && CacheIsProcessed()
    }

    /** `*copied = *n` with the notes of the reference site; the children stay shared. */
    method ShallowCopy(n: Node, note: Note) returns (copied: Node)
      requires Valid() && n in frozen
      modifies this`frozen
      ensures Valid() && fresh(copied) && frozen == old(frozen) + {copied}
      ensures copied.tree == n.tree.(note := note)
    {
      hide Processed;
      copied := new Node(n.ref, note, n.keywords, n.children, n.tree.(note := note), {});
      frozen := frozen + {copied};
    }

    /** `return t`: the node is handed out with everything below it untouched. */
    ghost method KeepAsIs(t: Node)
      requires Valid() && Whole(t) && t.parts !! defNodes
      modifies this`frozen
      ensures Valid() && frozen == old(frozen) + t.parts && t in frozen
    {
      hide Processed;
      frozen := frozen + t.parts;
    }

    ghost method Freeze(x: Node)
      requires Valid() && Frozen(frozen + {x}) && x !in defNodes
      modifies `frozen
      ensures Valid() && frozen == old(frozen) + {x}
    {
      hide Processed, DefinitionsDenote;
      frozen := frozen + {x};
    }

    method DereferenceType(t: Node) returns (r: Node)
      requires Valid() && Whole(t) && t.parts !! frozen && t.parts !! defNodes
      requires StackLeadsTo(trees, depthMap, LiveRefs(t.tree))
      modifies this, t.parts
      ensures Valid() && depthMap == old(depthMap)
      ensures old(frozen) <= frozen && fresh(frozen - old(frozen) - old(t.parts))
      ensures r in frozen && Dereferenced(trees, old(t.tree), r.tree)
      decreases trees.Keys - depthMap, t.tree, 4
    {
      hide Processed, Dereferenced, StackLeadsTo, Cyclic, KidRefs, DefinitionsDenote;
      assert t.ref == t.tree.ref;
      if RefName(t.ref) != "" {
        r := DereferenceReference(t);
      } else {
        DereferenceChildren(t);
        Freeze(t);
        InlineNode(trees, old(t.tree), t.tree);
        r := t;
      }
    }

    method DereferenceReference(t: Node) returns (r: Node)
      requires Valid() && Whole(t) && t.parts !! frozen && t.parts !! defNodes && Name(t.tree) != ""
      requires StackLeadsTo(trees, depthMap, LiveRefs(t.tree))
      modifies this
      ensures Valid() && depthMap == old(depthMap)
      ensures old(frozen) <= frozen && fresh(frozen - old(frozen) - old(t.parts))
      ensures r in frozen && Dereferenced(trees, old(t.tree), r.tree)
      decreases trees.Keys - depthMap, t.tree, 3
    {
      hide Processed, Dereferenced, StackLeadsTo, Cyclic, Frozen, CacheIsProcessed, DefinitionsDenote, LiveRefs;
      assert t.ref == t.tree.ref;
      DefinedExactly();
      var ref := RefName(t.ref);
      if ref in depthMap {
        OnStackIsCyclic(trees, depthMap, t.tree);
        KeptReference(trees, t.tree);
        KeepAsIs(t);
        return t;
      }
      depthMap := depthMap + {ref};
      if ref in cache {
        CachedIsProcessed(ref);
        InlinedReference(trees, t.tree, cache[ref].tree);
        r := ShallowCopy(cache[ref], t.note);
      } else if ref !in definitions {
        KeptReference(trees, t.tree);
        KeepAsIs(t);
        r := t;
      } else {
        PushLeads(trees, old(depthMap), t.tree);
        var def := DereferenceDefinition(ref);
        Remember(ref, def);
        InlinedReference(trees, t.tree, def.tree);
        r := ShallowCopy(def, t.note);
      }
      depthMap := depthMap - {ref};
    }

    lemma DefinedExactly()
      requires Valid()
      ensures definitions.Keys == trees.Keys
    {
    }

    lemma CachedIsProcessed(ref: string)
      requires Valid() && ref in cache
      ensures ref in trees && cache[ref] in frozen && Processed(trees, trees[ref], cache[ref].tree)
    {
    }

    method Remember(ref: string, def: Node)
      requires Valid() && ref in trees && def in frozen && Processed(trees, trees[ref], def.tree)
      modifies `cache
      ensures Valid() && cache == old(cache)[ref := def]
    {
      hide Processed;
      cache := cache[ref := def];
    }

    method DereferenceDefinition(ref: string) returns (def: Node)
      requires Valid() && ref in trees && ref in depthMap
      requires StackLeadsTo(trees, depthMap, KidRefs(trees[ref]))
      modifies this
      ensures Valid() && depthMap == old(depthMap)
      ensures old(frozen) <= frozen && fresh(frozen - old(frozen))
      ensures def in frozen && Processed(trees, trees[ref], def.tree)
      decreases trees.Keys - depthMap, trees[ref], 3
    {
      hide Processed, Dereferenced, StackLeadsTo, KidRefs, WholePart;
      def := DeepCopy(definitions[ref]);
      DereferenceChildren(def);
      Freeze(def);
    }

    /** The children of `x` in `todo` still belong to its unshared tree. */
    ghost predicate Waiting(x: Node, todo: set<Slot>)
      reads `frozen, x, x.parts
    {
      && todo <= x.children.Keys <= x.tree.kids.Keys
      && (forall s :: s in todo ==>
           && x.children[s] in x.parts && x.children[s].parts <= x.parts - {x}
           && x.children[s] in x.children[s].parts && x.children[s].parts !! frozen
           && Whole(x.children[s]) && x.children[s].tree == x.tree.kids[s])
      && (forall s, s' :: s in todo && s' in todo && s != s' ==> x.children[s].parts !! x.children[s'].parts)
    }

    /** The children of `x` outside `todo` are overwritten by dereferenced ones. */
    ghost predicate Overwritten(x: Node, todo: set<Slot>)
      reads `frozen, frozen, x
    {
      && FieldsAgree(x) && x !in frozen
      && (forall s :: s in x.children && s !in todo ==>
           x.children[s] in frozen && Dereferenced(trees, x.tree.kids[s], x.children[s].tree))
    }

    ghost predicate InProgress(x: Node, todo: set<Slot>)
      reads `frozen, frozen, x, x.parts
    {
      x in x.parts && x.parts !! defNodes && Waiting(x, todo) && Overwritten(x, todo)
    }

    /** Dereferencing one child touches neither the trees of the others nor the finished ones. */
    method DereferenceSlot(x: Node, ghost todo: set<Slot>, s: Slot) returns (child: Node)
      requires Valid() && s in todo && InProgress(x, todo)
      requires StackLeadsTo(trees, depthMap, KidRefs(x.tree))
      modifies this, x.children[s].parts
      ensures Valid() && depthMap == old(depthMap)
      ensures unchanged(x) && Waiting(x, todo - {s}) && Overwritten(x, todo)
      ensures old(frozen) <= frozen && fresh(frozen - old(frozen) - (x.parts - {x}))
      ensures child in frozen && Dereferenced(trees, x.tree.kids[s], child.tree)
      decreases trees.Keys - depthMap, x.tree, 0
    {
      hide Processed, Dereferenced, StackLeadsTo, KidRefs, Whole, WholePart, LiveRefs, Frozen;
      hide CacheIsProcessed, DefinitionsDenote;
      KidLeads(trees, depthMap, x.tree, s);
      child := DereferenceType(x.children[s]);
    }

    method DereferenceChild(x: Node, ghost todo: set<Slot>, s: Slot)
      requires Valid() && s in todo && InProgress(x, todo)
      requires StackLeadsTo(trees, depthMap, KidRefs(x.tree))
      modifies this, x, x.children[s].parts
      ensures Valid() && depthMap == old(depthMap)
      ensures x.tree == old(x.tree) && x.parts == old(x.parts) && InProgress(x, todo - {s})
      ensures old(frozen) <= frozen && fresh(frozen - old(frozen) - (x.parts - {x}))
      decreases trees.Keys - depthMap, x.tree, 1
    {
      hide Processed, Dereferenced, StackLeadsTo, KidRefs, Whole, WholePart, LiveRefs, Frozen;
      hide CacheIsProcessed, DefinitionsDenote;
      var child := DereferenceSlot(x, todo, s);
      PutChild(x, todo, s, child);
    }

    method PutChild(x: Node, ghost todo: set<Slot>, s: Slot, child: Node)
      requires Valid() && s in todo && x in x.parts && x.parts !! defNodes
      requires Waiting(x, todo - {s}) && Overwritten(x, todo) && s in x.children
      requires child in frozen && Dereferenced(trees, x.tree.kids[s], child.tree)
      modifies x`children
      ensures Valid() && x.tree == old(x.tree) && x.parts == old(x.parts) && InProgress(x, todo - {s})
    {
      hide Processed, Dereferenced, Whole, WholePart, Frozen, CacheIsProcessed, DefinitionsDenote;
      ghost var before := x.children;
      x.children := x.children[s := child];
      assert x.children.Keys == before.Keys;
      forall s' | s' in x.children && s' !in todo - {s}
        ensures x.children[s'] in frozen && Dereferenced(trees, x.tree.kids[s'], x.children[s'].tree)
      {
        assert s' != s ==> before[s'] in frozen && Dereferenced(trees, x.tree.kids[s'], before[s'].tree);
      }
    }

    /** The child slots are overwritten one after the other; the result holds for every order. */
    method DereferenceChildren(x: Node)
      requires Valid() && Whole(x) && x.parts !! frozen && x.parts !! defNodes
      requires StackLeadsTo(trees, depthMap, KidRefs(x.tree))
      modifies this, x.parts
      ensures Valid() && depthMap == old(depthMap)
      ensures old(frozen) <= frozen && fresh(frozen - old(frozen) - old(x.parts)) && x !in frozen
      ensures Frozen(frozen + {x}) && Processed(trees, old(x.tree), x.tree)
      decreases trees.Keys - depthMap, x.tree, 2
    {
      hide Dereferenced, StackLeadsTo, KidRefs, Frozen, CacheIsProcessed, DefinitionsDenote;
      hide Processed, InProgress, Whole;
      NothingDone(x);
      var todo := x.children.Keys;
      while todo != {}
        invariant Valid() && depthMap == old(depthMap) && InProgress(x, todo)
        invariant x.tree == old(x.tree) && x.parts == old(x.parts)
        invariant old(frozen) <= frozen && fresh(frozen - old(frozen) - (x.parts - {x}))
      {
        var s :| s in todo;
        ProgressChild(x, todo, s);
        DereferenceChild(x, todo, s);
        todo := todo - {s};
      }
      AllDone(x);
    }

    lemma NothingDone(x: Node)
      requires Valid() && Whole(x) && x.parts !! frozen && x.parts !! defNodes
      ensures InProgress(x, x.children.Keys) && x in x.parts
    {
      hide CacheIsProcessed, DefinitionsDenote, Dereferenced, Frozen;
      forall s | s in x.children ensures Whole(x.children[s]) {
        WholeChild(x, s);
      }
    }

    lemma ProgressChild(x: Node, todo: set<Slot>, s: Slot)
      requires InProgress(x, todo) && s in todo
      ensures s in x.children && x.children[s].parts <= x.parts - {x} && x !in frozen && x !in defNodes
    {
    }

    ghost method AllDone(x: Node)
      requires Valid() && InProgress(x, {})
      modifies x`tree
      ensures Valid() && x !in frozen
      ensures Frozen(frozen + {x}) && Processed(trees, old(x.tree), x.tree)
    {
      hide CacheIsProcessed, DefinitionsDenote, Dereferenced, Whole;
      x.tree := x.tree.(kids := map s | s in x.children :: x.children[s].tree);
    }
  }

  class SchemaDocument {
    var root: Node
    var definitions: map<string, Node>

    ghost function Trees(): Definitions
      reads this, definitions.Values
    {
      map q | q in definitions :: definitions[q].tree
    }

    ghost function DefinitionNodes(): set<Node>
      reads this, definitions.Values
    {
      set q, n | q in definitions && n in definitions[q].parts :: n
    }

    constructor (root: Node, definitions: map<string, Node>)
      ensures this.root == root && this.definitions == definitions
    {
      this.root, this.definitions := root, definitions;
    }

    /** References are replaced by what they refer to and the definitions are dropped.  The nodes of
        the definitions are not written. */
    method DereferenceSchema() returns (ghost nodes: set<Node>)
      requires Whole(root) && root.parts !! DefinitionNodes()
      requires forall q :: q in definitions ==> Whole(definitions[q])
      modifies this, root.parts
      ensures definitions == map[]
      ensures root in nodes && Frozen(nodes)
      ensures Dereferenced(old(Trees()), old(root.tree), root.tree)
      ensures Inlinable(old(Trees()), LiveRefs(old(root.tree))) ==>
        SameMeaning(old(Trees()), old(root.tree), map[], root.tree)
      ensures BareReferences(old(Trees())) ==>
        (SameMeaning(old(Trees()), old(root.tree), map[], root.tree) <==>
         Inlinable(old(Trees()), LiveRefs(old(root.tree))))
    {
      hide Dereferenced, Inlinable, BareReferences, SameMeaning, WholePart;
      ghost var trees, tree := Trees(), root.tree;
      var resolver := new Resolver(definitions, trees, DefinitionNodes());
      root := resolver.DereferenceType(root);
      definitions := map[];
      nodes := resolver.frozen;
      DroppingDefinitions(trees, tree, root.tree);
    }
  }
}
