/**
  The descriptor registry (GSQLProvider): an insertion-ordered table from
  trimmed bean names to SQL descriptors, filled once from the bean factory,
  read by name, and closed in bulk.
 */
module GSqlProvider {
  import opened Wrappers
  import opened LinkedMaps
  import opened StringOps

  /**
    An SQL descriptor as the registry sees it: a recorded name (null until
    set), and a close() that fails with `closeFailure` when that is present.
    `closeAttempts` counts the calls of close().
   */
  class Descriptor {
    var name: Option<string>
    var closeAttempts: nat
    const closeFailure: Option<string>

    constructor (closeFailure: Option<string>)
      ensures name == None && closeAttempts == 0 && this.closeFailure == closeFailure
    {
      name := None;
      closeAttempts := 0;
      this.closeFailure := closeFailure;
    }

    method SetName(n: string)
      modifies this`name
      ensures name == Some(n)
    {
      name := Some(n);
    }

    /** close(): one more attempt; returns the exception's message when it fails. */
    method Close() returns (failure: Option<string>)
      modifies this`closeAttempts
      ensures closeAttempts == old(closeAttempts) + 1
      ensures failure == closeFailure
    {
      closeAttempts := closeAttempts + 1;
      failure := closeFailure;
    }
  }

  /**
    The bean factory handed to setBeanFactory: a DefaultListableBeanFactory,
    given as its descriptor beans (bean name, and the descriptor getBean
    returns for the trimmed name, possibly null), in the order
    getBeansOfType lists them; or any other kind of factory.
   */
  datatype BeanFactory = DefaultListableBeanFactory(beans: seq<(string, Descriptor?)>) | OtherBeanFactory

  /** A bean as the registration loop sees it: toTrimOrNull of its name, and its descriptor. */
  type Candidate = (Option<string>, Descriptor?)

  function Candidates(beans: seq<(string, Descriptor?)>): seq<Candidate>
  {
    seq(|beans|, j requires 0 <= j < |beans| => (ToTrimOrNull(Some(beans[j].0)), beans[j].1))
  }

  /** The registration one candidate makes: none for a null name or a null descriptor. */
  function FilterOne(c: Candidate): seq<(string, Descriptor)>
  {
    if c.0.Some? && c.1 != null then [(c.0.value, c.1)] else []
  }

  /** The registrations the candidates make, in order (defined by its last step, as the loop runs). */
  function Filter(cs: seq<Candidate>): seq<(string, Descriptor)>
    decreases |cs|
  {
    if cs == [] then []
    else Filter(cs[..|cs| - 1]) + FilterOne(cs[|cs| - 1])
  }

  /** The registrations the beans of a listable factory make. */
  function Accepted(beans: seq<(string, Descriptor?)>): seq<(string, Descriptor)>
  {
    Filter(Candidates(beans))
  }

  /** The table after registering the beans into `table`. */
  function Registered(table: LinkedMap<string, Descriptor>, beans: seq<(string, Descriptor?)>): LinkedMap<string, Descriptor>
  {
    PutAll(table, Accepted(beans))
  }

  /** The descriptors that some registration names. */
  function DescriptorsOf(acc: seq<(string, Descriptor)>): set<Descriptor>
  {
    set j | 0 <= j < |acc| :: acc[j].1
  }

  /** The last name a descriptor was registered under, if any. */
  function LastName(acc: seq<(string, Descriptor)>, d: Descriptor): Option<string>
    decreases |acc|
  {
    if acc == [] then None
    else if acc[|acc| - 1].1 == d then Some(acc[|acc| - 1].0)
    else LastName(acc[..|acc| - 1], d)
  }

  /** Every registered descriptor records the last name it was registered under. */
  ghost predicate NamedAsRegistered(acc: seq<(string, Descriptor)>)
    reads DescriptorsOf(acc)
  {
    forall d :: d in DescriptorsOf(acc) ==> d.name == LastName(acc, d)
  }

  /**
    The container never hands one descriptor object out under two different
    names, neither among the new registrations nor against the table already there.
   */
  ghost predicate Coherent(table: LinkedMap<string, Descriptor>, acc: seq<(string, Descriptor)>) {
    && (forall i, j :: 0 <= i < |acc| && 0 <= j < |acc| && acc[i].1 == acc[j].1 ==> acc[i].0 == acc[j].0)
    && (forall i, k :: 0 <= i < |acc| && k in table.entries && table.entries[k] == acc[i].1 ==> acc[i].0 == k)
  }

  /** Each registration comes from a candidate with that name and descriptor. */
  lemma {:induction false} FilterFrom(cs: seq<Candidate>, j: nat)
    requires j < |Filter(cs)|
    ensures exists i :: 0 <= i < |cs| && cs[i].0 == Some(Filter(cs)[j].0) && cs[i].1 == Filter(cs)[j].1
    decreases |cs|
  {
    var p := cs[..|cs| - 1];
    assert Filter(cs) == Filter(p) + FilterOne(cs[|cs| - 1]);
    if j < |Filter(p)| {
      FilterFrom(p, j);
      var i :| 0 <= i < |p| && p[i].0 == Some(Filter(p)[j].0) && p[i].1 == Filter(p)[j].1;
      assert cs[i] == p[i];
    } else {
      assert Filter(cs)[j] == FilterOne(cs[|cs| - 1])[0];
    }
  }

  /** Registration only ever gives non-blank, already-trimmed names. */
  lemma AcceptedNamesTrimmed(beans: seq<(string, Descriptor?)>, j: nat)
    requires j < |Accepted(beans)|
    ensures Accepted(beans)[j].0 != [] && Trimmed(Accepted(beans)[j].0)
  {
    var cs := Candidates(beans);
    FilterFrom(cs, j);
    var i :| 0 <= i < |cs| && cs[i].0 == Some(Filter(cs)[j].0) && cs[i].1 == Filter(cs)[j].1;
    assert cs[i].0 == ToTrimOrNull(Some(beans[i].0));
  }

  lemma CandidatesSnoc(beans: seq<(string, Descriptor?)>, bean: (string, Descriptor?))
    ensures Candidates(beans + [bean]) == Candidates(beans) + [(ToTrimOrNull(Some(bean.0)), bean.1)]
  {
    var l := Candidates(beans + [bean]);
    var r := Candidates(beans) + [(ToTrimOrNull(Some(bean.0)), bean.1)];
    assert |l| == |r|;
    forall i | 0 <= i < |l|
      ensures l[i] == r[i]
    {
      if i < |beans| {
        assert (beans + [bean])[i] == beans[i];
      }
    }
  }

  lemma FilterSnoc(cs: seq<Candidate>, c: Candidate)
    ensures Filter(cs + [c]) == Filter(cs) + FilterOne(c)
  {
    assert (cs + [c])[..|cs|] == cs;
  }

  /** A bean whose name trims to nothing, or whose descriptor is null, leaves the table as it was. */
  lemma RejectedBeanIsNoOp(table: LinkedMap<string, Descriptor>, beans: seq<(string, Descriptor?)>,
                           bean: (string, Descriptor?))
    requires Trim(bean.0) == [] || bean.1 == null
    ensures Registered(table, beans + [bean]) == Registered(table, beans)
  {
    CandidatesSnoc(beans, bean);
    FilterSnoc(Candidates(beans), (ToTrimOrNull(Some(bean.0)), bean.1));
    assert Accepted(beans + [bean]) == Accepted(beans);
  }

  /**
    Any other bean is put under its trimmed name: the later registration
    wins, and a name already present keeps its position.
   */
  lemma AcceptedBeanIsPut(table: LinkedMap<string, Descriptor>, beans: seq<(string, Descriptor?)>,
                          bean: (string, Descriptor?))
    requires Trim(bean.0) != [] && bean.1 != null
    ensures var before := Registered(table, beans);
            var after := Registered(table, beans + [bean]);
            && Get(after, Trim(bean.0)) == Some(bean.1)
            && (forall k :: k != Trim(bean.0) ==> Get(after, k) == Get(before, k))
            && (Trim(bean.0) in before.keys ==> after.keys == before.keys)
            && (Trim(bean.0) !in before.keys ==> after.keys == before.keys + [Trim(bean.0)])
  {
    CandidatesSnoc(beans, bean);
    FilterSnoc(Candidates(beans), (ToTrimOrNull(Some(bean.0)), bean.1));
    var acc := Accepted(beans + [bean]);
    assert acc == Accepted(beans) + [(Trim(bean.0), bean.1)];
    assert acc[..|acc| - 1] == Accepted(beans);
  }

  /** Lookup after registration: a name holds the last descriptor registered under it, or what the table held. */
  lemma RegisteredGet(table: LinkedMap<string, Descriptor>, beans: seq<(string, Descriptor?)>, k: string)
    ensures var last := LastValue(Accepted(beans), k);
            Get(Registered(table, beans), k) == if last.Some? then last else Get(table, k)
  {
    PutAllGet(table, Accepted(beans), k);
  }

  /** Key order after registration: the old keys, then each new trimmed name at its first registration. */
  lemma RegisteredKeys(table: LinkedMap<string, Descriptor>, beans: seq<(string, Descriptor?)>)
    ensures Registered(table, beans).keys == Dedup(table.keys + Keys(Accepted(beans)))
  {
    PutAllKeys(table, Accepted(beans));
  }

  /** The names a fresh registry lists: each registered name once, in order of its first registration, and no other. */
  lemma RegisteredNames(beans: seq<(string, Descriptor?)>)
    ensures Registered(Empty(), beans).keys == Dedup(Keys(Accepted(beans)))
    ensures forall k :: k in Registered(Empty(), beans).keys <==> k in Keys(Accepted(beans))
  {
    var e: LinkedMap<string, Descriptor> := Empty();
    RegisteredKeys(e, beans);
    assert e.keys + Keys(Accepted(beans)) == Keys(Accepted(beans));
    DedupMembers(Keys(Accepted(beans)));
  }

  /** Every accepted descriptor is named, and its last name is a key of the registered table. */
  lemma AcceptedAreNamed(table: LinkedMap<string, Descriptor>, beans: seq<(string, Descriptor?)>, d: Descriptor)
    requires d in DescriptorsOf(Accepted(beans))
    ensures LastName(Accepted(beans), d).Some?
    ensures LastName(Accepted(beans), d).value in Registered(table, beans).entries
  {
    var acc := Accepted(beans);
    LastNameOfMember(acc, d);
    LastNameWitness(acc, d);
    var k := LastName(acc, d).value;
    var i :| 0 <= i < |acc| && acc[i] == (k, d);
    var all := table.keys + Keys(acc);
    assert all[|table.keys| + i] == k;
    RegisteredKeys(table, beans);
    DedupMembers(all);
  }

  lemma {:induction false} LastNameWitness(acc: seq<(string, Descriptor)>, d: Descriptor)
    requires LastName(acc, d).Some?
    ensures exists i :: 0 <= i < |acc| && acc[i] == (LastName(acc, d).value, d)
    decreases |acc|
  {
    if acc[|acc| - 1].1 != d {
      var p := acc[..|acc| - 1];
      LastNameWitness(p, d);
      var i :| 0 <= i < |p| && p[i] == (LastName(p, d).value, d);
      assert acc[i] == p[i];
    }
  }

  lemma {:induction false} LastNameOfMember(acc: seq<(string, Descriptor)>, d: Descriptor)
    requires d in DescriptorsOf(acc)
    ensures LastName(acc, d).Some?
    decreases |acc|
  {
    if acc[|acc| - 1].1 != d {
      var p := acc[..|acc| - 1];
      var j :| 0 <= j < |acc| && acc[j].1 == d;
      assert p[j].1 == d;
      LastNameOfMember(p, d);
    }
  }

  /**
    Under coherence, every entry of the registered table is either a
    descriptor last registered under that very key, or the entry the table
    already had.
   */
  lemma {:induction false} RegisteredEntries(table: LinkedMap<string, Descriptor>, acc: seq<(string, Descriptor)>, k: string)
    requires Coherent(table, acc)
    requires k in PutAll(table, acc).entries
    ensures var d := PutAll(table, acc).entries[k];
            && (d in DescriptorsOf(acc) ==> LastName(acc, d) == Some(k))
            && (d !in DescriptorsOf(acc) ==> k in table.entries && table.entries[k] == d)
    decreases |acc|
  {
    if acc != [] {
      var p := acc[..|acc| - 1];
      var (t, e) := acc[|acc| - 1];
      var d := PutAll(table, acc).entries[k];
      assert DescriptorsOf(acc) == DescriptorsOf(p) + {e};
      if k != t {
        assert Coherent(table, p);
        assert d == PutAll(table, p).entries[k];
        RegisteredEntries(table, p, k);
        if d in DescriptorsOf(p) {
          LastNameWitness(p, d);
          var i :| 0 <= i < |p| && p[i] == (k, d);
          assert acc[i] == p[i];
        }
      }
    }
  }

  lemma FilterStep(cs: seq<Candidate>, j: nat)
    requires j < |cs|
    ensures Filter(cs[..j + 1]) == Filter(cs[..j]) + FilterOne(cs[j])
  {
    assert cs[..j + 1][..j] == cs[..j];
  }

  lemma PutAllStep(table: LinkedMap<string, Descriptor>, cs: seq<Candidate>, j: nat)
    requires j < |cs|
    ensures var one := FilterOne(cs[j]);
            PutAll(table, Filter(cs[..j + 1]))
              == if one == [] then PutAll(table, Filter(cs[..j]))
                 else Put(PutAll(table, Filter(cs[..j])), one[0].0, one[0].1)
  {
    FilterStep(cs, j);
    var acc := Filter(cs[..j]);
    var acc' := Filter(cs[..j + 1]);
    if FilterOne(cs[j]) != [] {
      assert acc'[..|acc'| - 1] == acc;
      assert acc'[|acc'| - 1] == FilterOne(cs[j])[0];
      assert PutAll(table, acc') == Put(PutAll(table, acc), acc'[|acc'| - 1].0, acc'[|acc'| - 1].1);
    } else {
      assert acc' == acc;
    }
  }

  /** A candidate that registers puts its descriptor among the registered ones. */
  lemma {:induction false} FilterMember(cs: seq<Candidate>, j: nat)
    requires j < |cs| && FilterOne(cs[j]) != []
    ensures cs[j].1 in DescriptorsOf(Filter(cs))
    decreases |cs|
  {
    var p := cs[..|cs| - 1];
    var one := FilterOne(cs[|cs| - 1]);
    assert Filter(cs) == Filter(p) + one;
    if j == |cs| - 1 {
      DescriptorsSnoc(Filter(p), one[0].0, one[0].1);
    } else {
      assert p[j] == cs[j];
      FilterMember(p, j);
      if one != [] {
        DescriptorsSnoc(Filter(p), one[0].0, one[0].1);
        assert Filter(cs) == Filter(p) + [(one[0].0, one[0].1)];
      } else {
        assert Filter(cs) == Filter(p);
      }
    }
  }

  lemma DescriptorsSnoc(acc: seq<(string, Descriptor)>, t: string, e: Descriptor)
    ensures DescriptorsOf(acc + [(t, e)]) == DescriptorsOf(acc) + {e}
    ensures forall d :: LastName(acc + [(t, e)], d) == if d == e then Some(t) else LastName(acc, d)
  {
    var acc' := acc + [(t, e)];
    assert acc'[..|acc|] == acc;
    forall d | d in DescriptorsOf(acc')
      ensures d in DescriptorsOf(acc) + {e}
    {
      var i :| 0 <= i < |acc'| && acc'[i].1 == d;
      if i < |acc| {
        assert acc[i].1 == d;
      }
    }
    forall d | d in DescriptorsOf(acc)
      ensures d in DescriptorsOf(acc')
    {
      var i :| 0 <= i < |acc| && acc[i].1 == d;
      assert acc'[i].1 == d;
    }
    assert acc'[|acc|].1 == e;
  }

  /** One record of the bulk close: the entry's name and the failure its close() raised, if any. */
  datatype CloseAttempt = CloseAttempt(name: string, failure: Option<string>)

  /** The GSQLProvider bean: its table of descriptors (a LinkedHashMap). */
  class Provider {
    var descriptors: LinkedMap<string, Descriptor>

    constructor ()
      ensures descriptors == Empty()
    {
      descriptors := Empty();
    }

    /** Each entry's key is the name recorded in its descriptor. */
    ghost predicate NamesMatch()
      reads this, descriptors.entries.Values
    {
      forall k :: k in descriptors.entries ==> descriptors.entries[k].name == Some(k)
    }

    /** getSQLDescriptor: null for a null or blank name, else the entry under the trimmed name (null if none). */
    function GetSQLDescriptor(name: Option<string>): (r: Descriptor?)
      reads this
      ensures ToTrimOrNull(name).None? ==> r == null
      ensures ToTrimOrNull(name).Some? ==>
                (r != null <==> ToTrimOrNull(name).value in descriptors.entries)
      ensures r != null ==> r == descriptors.entries[ToTrimOrNull(name).value]
    {
      match ToTrimOrNull(name)
      case None => null
      case Some(t) =>
        match Get(descriptors, t)
        case None => null
        case Some(d) => d
    }

    /** getSQLDescriptorNames: every registered name once, in insertion order, as an immutable sequence. */
    function GetSQLDescriptorNames(): (r: seq<string>)
      reads this
      ensures Distinct(r)
      ensures forall k :: k in r <==> k in descriptors.entries
    {
      descriptors.keys
    }

    /**
      setBeanFactory: from a DefaultListableBeanFactory, each bean with a
      non-blank trimmed name and a non-null descriptor gets that name set and
      is put under it; a factory of any other class leaves the table alone.
     */
    method SetBeanFactory(factory: BeanFactory)
      modifies this`descriptors, (if factory.DefaultListableBeanFactory? then DescriptorsOf(Accepted(factory.beans)) else {})`name
      ensures factory.OtherBeanFactory? ==> descriptors == old(descriptors)
      ensures factory.DefaultListableBeanFactory? ==> descriptors == Registered(old(descriptors), factory.beans)
      ensures factory.DefaultListableBeanFactory? ==>
                forall d :: d in DescriptorsOf(Accepted(factory.beans)) ==> d.name == LastName(Accepted(factory.beans), d)
      ensures factory.DefaultListableBeanFactory? && old(NamesMatch()) && Coherent(old(descriptors), Accepted(factory.beans)) ==>
                NamesMatch()
    {
      if factory.OtherBeanFactory? {
        return;
      }
      ghost var all := Accepted(factory.beans);
      RegisterAll(factory.beans);
      if old(NamesMatch()) && Coherent(old(descriptors), all) {
        forall k | k in descriptors.entries
          ensures descriptors.entries[k].name == Some(k)
        {
          RegisteredEntries(old(descriptors), all, k);
        }
      }
    }

    /** The registration loop of setBeanFactory over the beans of a listable factory. */
    method RegisterAll(beans: seq<(string, Descriptor?)>)
      modifies this`descriptors, DescriptorsOf(Accepted(beans))`name
      ensures descriptors == Registered(old(descriptors), beans)
      ensures forall d :: d in DescriptorsOf(Accepted(beans)) ==> d.name == LastName(Accepted(beans), d)
    {
      ghost var cs := Candidates(beans);
      for j := 0 to |beans|
        invariant descriptors == PutAll(old(descriptors), Filter(cs[..j]))
        invariant NamedAsRegistered(Filter(cs[..j]))
      {
        RegisterBean(old(descriptors), beans, cs, j);
      }
      assert cs[..|beans|] == cs;
    }

    /** One turn of the registration loop: bean `j` is named and put, unless its name is blank or its descriptor null. */
    method RegisterBean(ghost table: LinkedMap<string, Descriptor>, beans: seq<(string, Descriptor?)>,
                        ghost cs: seq<Candidate>, j: nat)
      requires cs == Candidates(beans) && j < |beans|
      requires descriptors == PutAll(table, Filter(cs[..j]))
      requires NamedAsRegistered(Filter(cs[..j]))
      modifies this`descriptors, DescriptorsOf(Filter(cs))`name
      ensures descriptors == PutAll(table, Filter(cs[..j + 1]))
      ensures NamedAsRegistered(Filter(cs[..j + 1]))
    {
      ghost var acc := Filter(cs[..j]);
      FilterStep(cs, j);
      PutAllStep(table, cs, j);
      var name := ToTrimOrNull(Some(beans[j].0));
      assert cs[j] == (name, beans[j].1);
      if name.Some? && beans[j].1 != null {
        var descriptor := beans[j].1;
        assert Filter(cs[..j + 1]) == acc + [(name.value, descriptor)];
        FilterMember(cs, j);
        NameDescriptor(acc, name.value, descriptor);
        descriptors := Put(descriptors, name.value, descriptor);
      } else {
        assert Filter(cs[..j + 1]) == acc;
      }
    }

    /** The setName call of one registration, and the naming invariant it extends. */
    static method NameDescriptor(ghost acc: seq<(string, Descriptor)>, name: string, descriptor: Descriptor)
      requires NamedAsRegistered(acc)
      modifies descriptor`name
      ensures NamedAsRegistered(acc + [(name, descriptor)])
    {
      ghost var acc' := acc + [(name, descriptor)];
      DescriptorsSnoc(acc, name, descriptor);
      ghost var named := map d | d in DescriptorsOf(acc) :: d.name;
      descriptor.SetName(name);
      forall d | d in DescriptorsOf(acc')
        ensures d.name == LastName(acc', d)
      {
        if d != descriptor {
          assert d in named && named[d] == LastName(acc, d);
        }
      }
    }

    /** close: close() on every descriptor in insertion order; each failure is recorded and swallowed. */
    method Close() returns (attempts: seq<CloseAttempt>)
      modifies descriptors.entries.Values
      ensures |attempts| == |descriptors.keys|
      ensures forall j :: 0 <= j < |attempts| ==>
                attempts[j] == CloseAttempt(descriptors.keys[j], descriptors.entries[descriptors.keys[j]].closeFailure)
      ensures forall d :: d in descriptors.entries.Values ==> d.name == old(d.name)
      ensures old(NamesMatch()) ==>
                forall k :: k in descriptors.entries ==>
                  descriptors.entries[k].closeAttempts == old(descriptors.entries[k].closeAttempts) + 1
    {
      var keys := descriptors.keys;
      attempts := [];
      for j := 0 to |keys|
        invariant |attempts| == j
        invariant forall i :: 0 <= i < j ==>
                    attempts[i] == CloseAttempt(keys[i], descriptors.entries[keys[i]].closeFailure)
        invariant forall d :: d in descriptors.entries.Values ==> d.name == old(d.name)
        invariant old(NamesMatch()) ==>
                    forall i :: 0 <= i < |keys| ==>
                      descriptors.entries[keys[i]].closeAttempts
                        == old(descriptors.entries[keys[i]].closeAttempts) + (if i < j then 1 else 0)
      {
        var item := descriptors.entries[keys[j]];
        var failure := item.Close();
        attempts := attempts + [CloseAttempt(keys[j], failure)];
      }
    }
  }

  /** A name padded with blanks finds the same descriptor as the bare name: " x " and "x" resolve alike. */
  lemma LookupIgnoresPadding(p: Provider, before: string, core: string, after: string)
    requires AllBlank(before) && AllBlank(after) && Trimmed(core)
    ensures p.GetSQLDescriptor(Some(before + core + after)) == p.GetSQLDescriptor(Some(core))
  {
    TrimPadded(before, core, after);
    TrimPadded([], core, []);
    assert [] + core + [] == core;
    assert ToTrimOrNull(Some(before + core + after)) == ToTrimOrNull(Some(core));
  }

  /** Lookup trims its argument: any name and its trimmed form resolve alike. */
  lemma LookupTrims(p: Provider, name: string)
    ensures p.GetSQLDescriptor(Some(name)) == p.GetSQLDescriptor(Some(Trim(name)))
  {
    ToTrimOrNullOfTrim(name);
  }
}
