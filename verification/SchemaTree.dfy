/** JSON schemas as plain trees: what a reference means, which references are reachable, and the
    cache-free inlining that the dereferencer is compared with.  Nothing here reads the heap. */
module SchemaTree {

  /** The place a sub-schema occupies in its parent.  A Go node has nine child fields; here they are
      one map keyed by slot. */
  datatype Slot =
    | Items
    | AdditionalItems
    | Not
    | Property(key: string)
    | PatternProperty(key: string)
    | Dependency(key: string)
    | OneOf(index: nat)
    | AllOf(index: nat)
    | AnyOf(index: nat)

  /** The three fields that a reference site imposes on whatever it refers to. */
  datatype Note = Note(title: string, description: string, default: string)

  /** `keywords` stands for every other keyword of the node, as one opaque text. */
  datatype Tree = Tree(ref: string, note: Note, keywords: string, kids: map<Slot, Tree>)

  type Definitions = map<string, Tree>

  const PREFIX := "#/definitions/"

  /** strings.TrimPrefix: the definition a `$ref` text names, or "" when it names none. */
  function RefName(ref: string): string {
    if PREFIX <= ref then ref[|PREFIX|..] else ref
  }

  function Name(t: Tree): string {
    RefName(t.ref)
  }

  /** A text that starts with "#/definitions/" names what follows; any other text names itself, so that an
      empty text, and the bare start, name nothing. */
  lemma NamesByText(ref: string, q: string)
    ensures RefName("#/definitions/" + q) == q
    ensures !("#/definitions/" <= ref) ==> RefName(ref) == ref
  {
    assert ("#/definitions/" + q)[14..] == q;
  }

  // ---------------------------------------------------------------- references and reachability

  /** The references that matter in `t`: keywords beside a `$ref` are ignored
      (JSON Schema draft-07 core, section 8.3). */
  ghost function LiveRefs(t: Tree): set<string>
    decreases t, 1
  {
    if Name(t) != "" then {Name(t)} else KidRefs(t)
  }

  ghost function KidRefs(t: Tree): set<string>
    decreases t, 0
  {
    set s, r | s in t.kids && r in LiveRefs(t.kids[s]) :: r
  }

  /** The definitions that definition `q` refers to: through its own root and through its children. */
  ghost function Edges(D: Definitions, q: string): set<string> {
    if q !in D then {}
    else (if Name(D[q]) != "" then {Name(D[q])} else {}) + KidRefs(D[q])
  }

  ghost predicate IsPath(D: Definitions, p: seq<string>) {
    |p| > 0 && forall i :: 0 <= i < |p| - 1 ==> p[i + 1] in Edges(D, p[i])
  }

  ghost predicate Leads(D: Definitions, p: seq<string>, from: set<string>, to: string) {
    IsPath(D, p) && p[0] in from && p[|p| - 1] == to
  }

  ghost predicate Reaches(D: Definitions, from: set<string>, to: string) {
    exists p :: Leads(D, p, from, to)
  }

  /** `q` refers to itself, directly or through other definitions. */
  ghost predicate Cyclic(D: Definitions, q: string) {
    Reaches(D, Edges(D, q), q)
  }

  ghost predicate Acyclic(D: Definitions, from: set<string>) {
    forall q :: Reaches(D, from, q) ==> !Cyclic(D, q)
  }

  lemma ReachStart(D: Definitions, from: set<string>, to: string)
    requires to in from
    ensures Reaches(D, from, to)
  {
    assert Leads(D, [to], from, to);
  }

  lemma ReachFurther(D: Definitions, from: set<string>, via: string, to: string)
    requires Reaches(D, from, via) && Reaches(D, Edges(D, via), to)
    ensures Reaches(D, from, to)
  {
    var p :| Leads(D, p, from, via);
    var p' :| Leads(D, p', Edges(D, via), to);
    assert Leads(D, p + p', from, to);
  }

  /** Either the target is where we start, or one step leads to a place that reaches it. */
  lemma ReachUnfold(D: Definitions, from: set<string>, to: string) returns (start: string)
    requires Reaches(D, from, to)
    ensures start in from && (start == to || Reaches(D, Edges(D, start), to))
  {
    var p :| Leads(D, p, from, to);
    start := p[0];
    if |p| > 1 {
      assert forall i :: 0 <= i < |p| - 2 ==> p[1..][i + 1] in Edges(D, p[1..][i]);
      assert Leads(D, p[1..], Edges(D, start), to);
    }
  }

  lemma ReachWider(D: Definitions, from: set<string>, wider: set<string>, to: string)
    requires Reaches(D, from, to) && from <= wider
    ensures Reaches(D, wider, to)
  {
    var p :| Leads(D, p, from, to);
    assert Leads(D, p, wider, to);
  }

  /** What the children of `t` reach is reached through one of them. */
  lemma ReachThroughKid(D: Definitions, t: Tree, to: string) returns (s: Slot)
    requires Reaches(D, KidRefs(t), to)
    ensures s in t.kids && Reaches(D, LiveRefs(t.kids[s]), to)
  {
    var p :| Leads(D, p, KidRefs(t), to);
    s :| s in t.kids && p[0] in LiveRefs(t.kids[s]);
    assert Leads(D, p, LiveRefs(t.kids[s]), to);
  }

  lemma KidReaches(D: Definitions, t: Tree, s: Slot, to: string)
    requires s in t.kids && Reaches(D, LiveRefs(t.kids[s]), to)
    ensures Reaches(D, KidRefs(t), to)
  {
    ReachWider(D, LiveRefs(t.kids[s]), KidRefs(t), to);
  }

  /** Every definition on the stack leads to each of `refs`. */
  ghost predicate StackLeadsTo(D: Definitions, stack: set<string>, refs: set<string>) {
    forall q, r :: q in stack && r in refs ==> Reaches(D, Edges(D, q), r)
  }

  /** Entering the definition that `t` refers to keeps that so for what its children refer to. */
  lemma PushLeads(D: Definitions, stack: set<string>, t: Tree)
    requires Name(t) != "" && Name(t) in D && StackLeadsTo(D, stack, LiveRefs(t))
    ensures StackLeadsTo(D, stack + {Name(t)}, KidRefs(D[Name(t)]))
  {
    var q := Name(t);
    forall p, r | p in stack + {q} && r in KidRefs(D[q]) ensures Reaches(D, Edges(D, p), r) {
      ReachStart(D, Edges(D, q), r);
      if p != q { ReachFurther(D, Edges(D, p), q, r); }
    }
  }

  /** A name met while it is on the stack refers to itself. */
  lemma OnStackIsCyclic(D: Definitions, stack: set<string>, t: Tree)
    requires Name(t) != "" && Name(t) in stack && StackLeadsTo(D, stack, LiveRefs(t))
    ensures Cyclic(D, Name(t))
  {
  }

  lemma KidLeads(D: Definitions, stack: set<string>, t: Tree, s: Slot)
    requires s in t.kids && StackLeadsTo(D, stack, KidRefs(t))
    ensures StackLeadsTo(D, stack, LiveRefs(t.kids[s]))
  {
    assert LiveRefs(t.kids[s]) <= KidRefs(t);
  }

  // ---------------------------------------------------------------- what a schema means

  /** What a node stands for once the chain of references starting at it is followed to its end. */
  datatype Target = Found(node: Tree) | Missing(name: string) | Endless

  ghost predicate EndsIn(D: Definitions, t: Tree, steps: nat)
    decreases steps
  {
    if Name(t) == "" || Name(t) !in D then steps == 0
    else steps > 0 && EndsIn(D, D[Name(t)], steps - 1)
  }

  ghost function Follow(D: Definitions, t: Tree, steps: nat): Target
    requires EndsIn(D, t, steps)
    decreases steps
  {
    if Name(t) == "" then Found(t)
    else if Name(t) !in D then Missing(Name(t))
    else Follow(D, D[Name(t)], steps - 1)
  }

  ghost function Resolve(D: Definitions, t: Tree): Target {
    if steps: nat :| EndsIn(D, t, steps) then Follow(D, t, steps) else Endless
  }

  /** The meaning of a schema, seen to a given depth. */
  datatype View =
    | Cut
    | Dangling(name: string, note: Note)
    | Circular(note: Note)
    | Shape(note: Note, keywords: string, kids: map<Slot, View>)

  /** Expand every reference of `t` down to `depth` levels.  A reference site keeps its own title,
      description and default. */
  ghost function Expand(D: Definitions, t: Tree, depth: nat): View
    decreases depth
  {
    if depth == 0 then Cut
    else match Resolve(D, t)
      case Missing(name) => Dangling(name, t.note)
      case Endless => Circular(t.note)
      case Found(x) => Shape(t.note, x.keywords, map s | s in x.kids :: Expand(D, x.kids[s], depth - 1))
  }

  ghost predicate SameMeaning(D: Definitions, t: Tree, D': Definitions, t': Tree) {
    forall depth: nat :: Expand(D, t, depth) == Expand(D', t', depth)
  }

  lemma EndsOnce(D: Definitions, t: Tree, m: nat, n: nat)
    requires EndsIn(D, t, m) && EndsIn(D, t, n)
    ensures m == n
    decreases m
  {
    if Name(t) != "" && Name(t) in D {
      EndsOnce(D, D[Name(t)], m - 1, n - 1);
    }
  }

  /** A reference stands for whatever its definition stands for. */
  lemma ResolveStep(D: Definitions, t: Tree)
    ensures Name(t) == "" ==> Resolve(D, t) == Found(t)
    ensures Name(t) != "" && Name(t) !in D ==> Resolve(D, t) == Missing(Name(t))
    ensures Name(t) != "" && Name(t) in D ==> Resolve(D, t) == Resolve(D, D[Name(t)])
  {
    if Name(t) == "" || Name(t) !in D {
      assert EndsIn(D, t, 0);
    } else {
      var d := D[Name(t)];
      if steps: nat :| EndsIn(D, t, steps) {
        assert EndsIn(D, d, steps - 1);
        forall n: nat | EndsIn(D, d, n) ensures n == steps - 1 { EndsOnce(D, d, n, steps - 1); }
        forall n: nat | EndsIn(D, t, n) ensures n == steps { EndsOnce(D, t, n, steps); }
      } else {
        forall n: nat ensures !EndsIn(D, d, n) {
          assert EndsIn(D, t, n + 1) == EndsIn(D, d, n);
        }
      }
    }
  }

  /** Only the reference name of a referring node decides what it resolves to. */
  lemma ResolveByName(D: Definitions, t: Tree, t': Tree)
    requires Name(t) == Name(t') != ""
    ensures Resolve(D, t) == Resolve(D, t')
  {
    ResolveStep(D, t);
    ResolveStep(D, t');
  }

  /** A dangling reference is reported under a name that has no definition. */
  lemma MissingIsUndefined(D: Definitions, t: Tree)
    requires Resolve(D, t).Missing?
    ensures Resolve(D, t).name !in D
  {
    var steps: nat :| EndsIn(D, t, steps);
    forall n: nat | EndsIn(D, t, n) ensures n == steps { EndsOnce(D, t, n, steps); }
    FollowMissing(D, t, steps);
  }

  lemma {:induction false} FollowMissing(D: Definitions, t: Tree, steps: nat)
    requires EndsIn(D, t, steps) && Follow(D, t, steps).Missing?
    ensures Follow(D, t, steps).name !in D
    decreases steps
  {
    if Name(t) != "" && Name(t) in D {
      FollowMissing(D, D[Name(t)], steps - 1);
    }
  }

  // ---------------------------------------------------------------- cache-free inlining

  /** Inlining without a cache: `stack` holds the names being inlined on the way here. */
  ghost function Inline(D: Definitions, t: Tree, stack: set<string>): Tree
    decreases D.Keys - stack, t
  {
    var q := Name(t);
    if q == "" then
      t.(kids := map s | s in t.kids :: Inline(D, t.kids[s], stack))
    else if q in stack || q !in D then
      t
    else
      D[q].(note := t.note, kids := map s | s in D[q].kids :: Inline(D, D[q].kids[s], stack + {q}))
  }

  /** Names that cannot be reached again do not influence inlining. */
  lemma {:induction false} InlineIgnoresStack(D: Definitions, t: Tree, stack: set<string>, stack': set<string>)
    requires Acyclic(D, LiveRefs(t))
    requires forall q :: Reaches(D, LiveRefs(t), q) ==> q !in stack && q !in stack'
    ensures Inline(D, t, stack) == Inline(D, t, stack')
    decreases D.Keys - stack, t
  {
    var q := Name(t);
    if q == "" {
      forall s | s in t.kids ensures Inline(D, t.kids[s], stack) == Inline(D, t.kids[s], stack') {
        forall r | Reaches(D, LiveRefs(t.kids[s]), r) ensures Reaches(D, LiveRefs(t), r) {
          KidReaches(D, t, s, r);
        }
        InlineIgnoresStack(D, t.kids[s], stack, stack');
      }
    } else {
      ReachStart(D, LiveRefs(t), q);
      if q in D {
        var d := D[q];
        forall s | s in d.kids ensures Inline(D, d.kids[s], stack + {q}) == Inline(D, d.kids[s], stack' + {q}) {
          forall r | Reaches(D, LiveRefs(d.kids[s]), r) ensures Reaches(D, LiveRefs(t), r) && r != q {
            ReachWider(D, LiveRefs(d.kids[s]), Edges(D, q), r);
            ReachFurther(D, LiveRefs(t), q, r);
          }
          InlineIgnoresStack(D, d.kids[s], stack + {q}, stack' + {q});
        }
      }
    }
  }

  // ---------------------------------------------------------------- what dereferencing must achieve

  /** A remaining reference is justified: it is undefined, it refers to itself, or some definition
      reached from `from` is nothing but a reference to it. */
  ghost predicate Justified(D: Definitions, from: set<string>, q: string) {
    q !in D || Cyclic(D, q) || exists d :: d in D && Name(D[d]) == q && Reaches(D, from, d)
  }

  ghost predicate LeftoversJustified(D: Definitions, t: Tree, r: Tree) {
    forall q :: q in LiveRefs(r) ==> Reaches(D, LiveRefs(t), q) && Justified(D, LiveRefs(t), q)
  }

  /** No remaining reference of `r` names a definition: `r` can stand alone. */
  ghost predicate StandsAlone(D: Definitions, r: Tree) {
    LiveRefs(r) !! D.Keys
  }

  /** Every definition reached from `from` avoids itself and is not a mere reference to a definition. */
  ghost predicate Inlinable(D: Definitions, from: set<string>) {
    forall q :: q in D && Reaches(D, from, q) ==>
      !Cyclic(D, q) && (Name(D[q]) == "" || Name(D[q]) !in D)
  }

  /** A definition whose root is a reference carries no sub-schemas beside it. */
  ghost predicate BareReferences(D: Definitions) {
    forall q :: q in D && Name(D[q]) != "" ==> D[q].kids == map[]
  }

  /** `r` is an admissible result of dereferencing `t`. */
  ghost predicate Dereferenced(D: Definitions, t: Tree, r: Tree) {
    && SameMeaning(D, t, D, r)
    && LeftoversJustified(D, t, r)
    && (BareReferences(D) && StandsAlone(D, r) ==> Inlinable(D, LiveRefs(t)))
    && (Acyclic(D, LiveRefs(t)) ==> r == Inline(D, t, {}))
  }

  /** `c` is `t` with every child dereferenced and everything else untouched. */
  ghost predicate Processed(D: Definitions, t: Tree, c: Tree) {
    && c == t.(kids := c.kids)
    && c.kids.Keys == t.kids.Keys
    && forall s :: s in t.kids ==> Dereferenced(D, t.kids[s], c.kids[s])
  }

  /** A reference that stays as it is: undefined, or met while it is being inlined. */
  lemma KeptReference(D: Definitions, t: Tree)
    requires Name(t) != ""
    requires Name(t) !in D || Cyclic(D, Name(t))
    ensures Dereferenced(D, t, t)
  {
    var q := Name(t);
    ReachStart(D, LiveRefs(t), q);
    forall r | Reaches(D, LiveRefs(t), r) && q !in D ensures r == q {
      var start := ReachUnfold(D, LiveRefs(t), r);
      if start != r {
        var next := ReachUnfold(D, Edges(D, q), r);
      }
    }
  }

  /** The children of `c` mean what the children of `t` mean. */
  ghost predicate KidsMeanTheSame(D: Definitions, t: Tree, c: Tree) {
    && c.kids.Keys == t.kids.Keys
    && forall s :: s in t.kids ==> SameMeaning(D, t.kids[s], D, c.kids[s])
  }

  lemma ExpandKids(D: Definitions, t: Tree, c: Tree, depth: nat)
    requires KidsMeanTheSame(D, t, c)
    ensures (map s | s in t.kids :: Expand(D, t.kids[s], depth)) == (map s | s in c.kids :: Expand(D, c.kids[s], depth))
  {
  }

  /** A node stands for `t` when it carries the notes of `t`, and the content of what `t` resolves to. */
  lemma SameShape(D: Definitions, t: Tree, x: Tree, r: Tree, depth: nat)
    requires Resolve(D, t) == Found(x) && Resolve(D, r) == Found(r)
    requires r.note == t.note && r.keywords == x.keywords && KidsMeanTheSame(D, x, r)
    ensures Expand(D, t, depth) == Expand(D, r, depth)
  {
    hide Resolve, KidsMeanTheSame;
    if depth > 0 { ExpandKids(D, x, r, depth - 1); }
  }

  /** An inline node whose children are dereferenced is dereferenced. */
  lemma InlineNode(D: Definitions, t: Tree, c: Tree)
    requires Name(t) == "" && Processed(D, t, c)
    ensures Dereferenced(D, t, c)
  {
    InlineNodeMeaning(D, t, c);
    assert LeftoversJustified(D, t, c) by {
      forall q | q in LiveRefs(c) ensures Reaches(D, LiveRefs(t), q) && Justified(D, LiveRefs(t), q) {
        KidLeftover(D, t, c, q);
      }
    }
    if BareReferences(D) && StandsAlone(D, c) {
      KidsInlinable(D, t, c);
    }
    if Acyclic(D, LiveRefs(t)) {
      InlineNodePurely(D, t, c);
    }
  }

  lemma InlineNodeMeaning(D: Definitions, t: Tree, c: Tree)
    requires Name(t) == "" && c == t.(kids := c.kids) && KidsMeanTheSame(D, t, c)
    ensures SameMeaning(D, t, D, c)
  {
    ResolveStep(D, t);
    ResolveStep(D, c);
    forall depth: nat ensures Expand(D, t, depth) == Expand(D, c, depth) {
      SameShape(D, t, t, c, depth);
    }
  }

  lemma InlineNodePurely(D: Definitions, t: Tree, c: Tree)
    requires Name(t) == "" && Processed(D, t, c)
    requires Acyclic(D, LiveRefs(t))
    ensures c == Inline(D, t, {})
  {
    forall s | s in t.kids ensures c.kids[s] == Inline(D, t.kids[s], {}) {
      forall r | Reaches(D, LiveRefs(t.kids[s]), r) ensures Reaches(D, LiveRefs(t), r) { KidReaches(D, t, s, r); }
    }
    assert c.kids == map s | s in t.kids :: Inline(D, t.kids[s], {});
  }

  /** What remains below `c` was reached through a child of `t` and is justified there. */
  lemma KidLeftover(D: Definitions, t: Tree, c: Tree, q: string)
    requires c.kids.Keys == t.kids.Keys && q in KidRefs(c)
    requires forall s :: s in t.kids ==> LeftoversJustified(D, t.kids[s], c.kids[s])
    ensures Reaches(D, KidRefs(t), q) && Justified(D, KidRefs(t), q)
  {
    var s :| s in c.kids && q in LiveRefs(c.kids[s]);
    KidReaches(D, t, s, q);
    if q in D && !Cyclic(D, q) {
      var d :| d in D && Name(D[d]) == q && Reaches(D, LiveRefs(t.kids[s]), d);
      KidReaches(D, t, s, d);
    }
  }

  lemma KidsInlinable(D: Definitions, t: Tree, c: Tree)
    requires c.kids.Keys == t.kids.Keys && KidRefs(c) !! D.Keys
    requires forall s :: s in t.kids && StandsAlone(D, c.kids[s]) ==> Inlinable(D, LiveRefs(t.kids[s]))
    ensures Inlinable(D, KidRefs(t))
  {
    forall q | q in D && Reaches(D, KidRefs(t), q)
      ensures !Cyclic(D, q) && (Name(D[q]) == "" || Name(D[q]) !in D)
    {
      var s := ReachThroughKid(D, t, q);
      assert LiveRefs(c.kids[s]) <= KidRefs(c);
      assert StandsAlone(D, c.kids[s]);
    }
  }

  /** Replacing a reference by its processed definition, with the notes of the reference site. */
  lemma InlinedReference(D: Definitions, t: Tree, c: Tree)
    requires Name(t) != "" && Name(t) in D
    requires Processed(D, D[Name(t)], c)
    ensures Dereferenced(D, t, c.(note := t.note))
  {
    var q, d, r := Name(t), D[Name(t)], c.(note := t.note);
    InlinedMeaning(D, t, c);
    InlinedLeftovers(D, t, c);
    if BareReferences(D) && StandsAlone(D, r) {
      InlinedStandsAlone(D, t, c);
    }
    if Acyclic(D, LiveRefs(t)) {
      InlinedPurely(D, t, c);
    }
  }

  lemma InlinedMeaning(D: Definitions, t: Tree, c: Tree)
    requires Name(t) != "" && Name(t) in D
    requires c == D[Name(t)].(kids := c.kids) && KidsMeanTheSame(D, D[Name(t)], c)
    ensures SameMeaning(D, t, D, c.(note := t.note))
  {
    var d, r := D[Name(t)], c.(note := t.note);
    ResolveStep(D, t);
    ResolveStep(D, d);
    ResolveStep(D, r);
    forall depth: nat ensures Expand(D, t, depth) == Expand(D, r, depth) {
      if Name(d) == "" {
        SameShape(D, t, d, r, depth);
      } else {
        ResolveByName(D, d, r);
      }
    }
  }

  lemma InlinedLeftovers(D: Definitions, t: Tree, c: Tree)
    requires Name(t) != "" && Name(t) in D
    requires Processed(D, D[Name(t)], c)
    ensures LeftoversJustified(D, t, c.(note := t.note))
  {
    var q, d, r := Name(t), D[Name(t)], c.(note := t.note);
    ReachStart(D, LiveRefs(t), q);
    forall x | x in LiveRefs(r) ensures Reaches(D, LiveRefs(t), x) && Justified(D, LiveRefs(t), x) {
      if Name(d) != "" {
        ReachStart(D, Edges(D, q), x);
        ReachFurther(D, LiveRefs(t), q, x);
      } else {
        assert KidRefs(r) == KidRefs(c);
        KidLeftover(D, d, c, x);
        ReachWider(D, KidRefs(d), Edges(D, q), x);
        ReachFurther(D, LiveRefs(t), q, x);
        if x in D && !Cyclic(D, x) {
          var y :| y in D && Name(D[y]) == x && Reaches(D, KidRefs(d), y);
          ReachWider(D, KidRefs(d), Edges(D, q), y);
          ReachFurther(D, LiveRefs(t), q, y);
        }
      }
    }
  }

  lemma InlinedStandsAlone(D: Definitions, t: Tree, c: Tree)
    requires Name(t) != "" && Name(t) in D
    requires Processed(D, D[Name(t)], c)
    requires BareReferences(D) && StandsAlone(D, c.(note := t.note))
    ensures Inlinable(D, LiveRefs(t))
  {
    var q, d, r := Name(t), D[Name(t)], c.(note := t.note);
    if Name(d) == "" {
      assert KidRefs(r) == KidRefs(c);
      KidsInlinable(D, d, c);
      assert Edges(D, q) == KidRefs(d);
    } else {
      assert KidRefs(d) == {};
      assert Edges(D, q) == {Name(d)};
      assert LiveRefs(r) == {Name(d)};
      UndefinedReachesNothing(D, Name(d));
    }
    assert Inlinable(D, Edges(D, q));
    assert !Cyclic(D, q);
    forall x | x in D && Reaches(D, LiveRefs(t), x)
      ensures !Cyclic(D, x) && (Name(D[x]) == "" || Name(D[x]) !in D)
    {
      var start := ReachUnfold(D, LiveRefs(t), x);
    }
  }

  lemma UndefinedReachesNothing(D: Definitions, q: string)
    requires q !in D
    ensures forall x :: Reaches(D, {q}, x) ==> x == q
  {
    forall x | Reaches(D, {q}, x) ensures x == q {
      var start := ReachUnfold(D, {q}, x);
      if start != x { var none := ReachUnfold(D, {}, x); }
    }
  }

  lemma InlinedPurely(D: Definitions, t: Tree, c: Tree)
    requires Name(t) != "" && Name(t) in D
    requires Processed(D, D[Name(t)], c)
    requires Acyclic(D, LiveRefs(t))
    ensures c.(note := t.note) == Inline(D, t, {})
  {
    var q, d := Name(t), D[Name(t)];
    ReachStart(D, LiveRefs(t), q);
    forall s | s in d.kids ensures c.kids[s] == Inline(D, d.kids[s], {} + {q}) {
      forall x | Reaches(D, LiveRefs(d.kids[s]), x) ensures Reaches(D, LiveRefs(t), x) && x != q {
        ReachWider(D, LiveRefs(d.kids[s]), Edges(D, q), x);
        ReachFurther(D, LiveRefs(t), q, x);
      }
      InlineIgnoresStack(D, d.kids[s], {}, {} + {q});
    }
    assert c.kids == map s | s in d.kids :: Inline(D, d.kids[s], {} + {q});
  }

  // ---------------------------------------------------------------- dropping the definitions

  lemma {:induction false} AloneWithoutDefinitions(D: Definitions, r: Tree, depth: nat)
    requires StandsAlone(D, r)
    ensures Expand(map[], r, depth) == Expand(D, r, depth)
  {
    hide Resolve;
    ResolveStep(D, r);
    ResolveStep(map[], r);
    if depth > 0 && Name(r) == "" {
      forall s | s in r.kids ensures Expand(map[], r.kids[s], depth - 1) == Expand(D, r.kids[s], depth - 1) {
        assert LiveRefs(r.kids[s]) <= LiveRefs(r);
        AloneWithoutDefinitions(D, r.kids[s], depth - 1);
      }
      var alone := map s | s in r.kids :: Expand(map[], r.kids[s], depth - 1);
      assert alone == map s | s in r.kids :: Expand(D, r.kids[s], depth - 1);
    }
  }

  /** A remaining reference to a definition is visible at some depth once the definitions are gone. */
  lemma {:induction false} DefinedLeftoverShows(D: Definitions, r: Tree, q: string) returns (depth: nat)
    requires q in LiveRefs(r) && q in D
    ensures Expand(map[], r, depth) != Expand(D, r, depth)
    decreases r
  {
    ResolveStep(D, r);
    ResolveStep(map[], r);
    if Name(r) != "" {
      depth := 1;
      if Resolve(D, r).Missing? { MissingIsUndefined(D, r); }
    } else {
      var s :| s in r.kids && q in LiveRefs(r.kids[s]);
      var below := DefinedLeftoverShows(D, r.kids[s], q);
      depth := below + 1;
      assert Expand(map[], r, depth).kids[s] == Expand(map[], r.kids[s], below);
      assert Expand(D, r, depth).kids[s] == Expand(D, r.kids[s], below);
    }
  }

  lemma MeansTheSameAlone(D: Definitions, r: Tree)
    ensures SameMeaning(D, r, map[], r) <==> StandsAlone(D, r)
  {
    if StandsAlone(D, r) {
      forall depth: nat ensures Expand(D, r, depth) == Expand(map[], r, depth) {
        AloneWithoutDefinitions(D, r, depth);
      }
    } else {
      var q :| q in LiveRefs(r) && q in D;
      var depth := DefinedLeftoverShows(D, r, q);
    }
  }

  /** Once the definitions are dropped the dereferenced schema means what the original meant exactly
      when what it reaches can be inlined; sufficiency needs no assumption on the definitions. */
  lemma DroppingDefinitions(D: Definitions, t: Tree, r: Tree)
    requires Dereferenced(D, t, r)
    ensures Inlinable(D, LiveRefs(t)) ==> SameMeaning(D, t, map[], r)
    ensures BareReferences(D) ==> (SameMeaning(D, t, map[], r) <==> Inlinable(D, LiveRefs(t)))
  {
    MeansTheSameAlone(D, r);
    assert SameMeaning(D, t, map[], r) <==> SameMeaning(D, r, map[], r) by {
      assert forall depth: nat :: Expand(D, t, depth) == Expand(D, r, depth);
    }
    if Inlinable(D, LiveRefs(t)) {
      forall q | q in LiveRefs(r) ensures q !in D {
        LiveRefsNamed(r, q);
      }
    }
  }

  /** Closed, acyclic definitions are not enough: a definition that is a mere reference to another one
      is not followed, so its reference dangles once the definitions are dropped. */
  lemma AliasDangles(r: Tree)
    ensures
      var note := Note("", "", "");
      var D := map["A" := Tree("#/definitions/B", note, "", map[]), "B" := Tree("", note, "object", map[])];
      var t := Tree("#/definitions/A", note, "", map[]);
      && Acyclic(D, LiveRefs(t))
      && (forall q :: Reaches(D, LiveRefs(t), q) ==> q in D)
      && (Dereferenced(D, t, r) ==> !SameMeaning(D, t, map[], r))
  {
    var note := Note("", "", "");
    var D := map["A" := Tree("#/definitions/B", note, "", map[]), "B" := Tree("", note, "object", map[])];
    var t := Tree("#/definitions/A", note, "", map[]);
    NamesByText("", "A");
    NamesByText("", "B");
    assert Name(t) == "A" && Edges(D, "A") == {"B"} && Edges(D, "B") == {};
    assert !Cyclic(D, "B") by {
      if Cyclic(D, "B") { var none := ReachUnfold(D, {}, "B"); }
    }
    forall q | Reaches(D, {"B"}, q) ensures q == "B" {
      var start := ReachUnfold(D, {"B"}, q);
      if start != q { var none := ReachUnfold(D, {}, q); }
    }
    assert !Cyclic(D, "A");
    forall q | Reaches(D, LiveRefs(t), q) ensures q == "A" || q == "B" {
      var start := ReachUnfold(D, LiveRefs(t), q);
    }
    ReachStart(D, LiveRefs(t), "A");
    assert BareReferences(D) && !Inlinable(D, LiveRefs(t));
    if Dereferenced(D, t, r) { DroppingDefinitions(D, t, r); }
  }

  /** With closed, acyclic definitions none of which is a mere reference, no reference remains. */
  lemma ClosedAcyclicLeavesNoReference(D: Definitions, t: Tree, r: Tree)
    requires Dereferenced(D, t, r)
    requires Acyclic(D, LiveRefs(t))
    requires forall q :: Reaches(D, LiveRefs(t), q) ==> q in D && Name(D[q]) == ""
    ensures LiveRefs(r) == {}
  {
    if q :| q in LiveRefs(r) {
      LiveRefsNamed(r, q);
      assert false;
    }
  }

  /** A site that refers to "#/definitions/q", where `q` does not lead back to itself, becomes the
      definition: no reference, its keywords, its child slots, and the notes of the site. */
  lemma ReferenceBecomesDefinition(D: Definitions, t: Tree, r: Tree, q: string)
    requires t.ref == "#/definitions/" + q && q != "" && q in D && D[q].ref == ""
    requires Acyclic(D, {q}) && Dereferenced(D, t, r)
    ensures r.ref == "" && r.keywords == D[q].keywords && r.note == t.note && r.kids.Keys == D[q].kids.Keys
  {
    NamesByText(t.ref, q);
    assert LiveRefs(t) == {q};
    assert r == Inline(D, t, {});
  }

  /** An empty text is no reference: the node keeps its keywords, notes and child slots. */
  lemma PlainNodeStays(D: Definitions, t: Tree, r: Tree)
    requires t.ref == "" && Acyclic(D, LiveRefs(t)) && Dereferenced(D, t, r)
    ensures r.ref == "" && r.keywords == t.keywords && r.note == t.note && r.kids.Keys == t.kids.Keys
  {
    NamesByText(t.ref, "");
    assert r == Inline(D, t, {});
  }

  lemma {:induction false} LiveRefsNamed(t: Tree, q: string)
    requires q in LiveRefs(t)
    ensures q != ""
  {
    if Name(t) == "" {
      var s :| s in t.kids && q in LiveRefs(t.kids[s]);
      LiveRefsNamed(t.kids[s], q);
    }
  }
}
