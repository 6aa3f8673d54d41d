/** Grouping a flat partition list into per-topic blocks (the encoder's
    `groupDataByTopic` step) and flattening blocks back into a list (the
    decoder's inner loops), with the facts that relate the two. */
module TopicGrouping {
  import opened ProtocolTypes

  /** One `topic_partitions` block of a marker: a topic and its partition numbers. */
  datatype TopicBlock = TopicBlock(topic: string, partitions: seq<Int32>)

  /** The topics that occur in `ps`. */
  function Topics(ps: seq<TopicPartition>): set<string>
  {
    set i | 0 <= i < |ps| :: ps[i].topic
  }

  /** The elements of `ps` on topic `t`, in their order in `ps`. */
  function OnTopic(ps: seq<TopicPartition>, t: string): seq<TopicPartition>
  {
    if |ps| == 0 then []
    else (if ps[0].topic == t then [ps[0]] else []) + OnTopic(ps[1..], t)
  }

  /** The partition numbers of `ps`, in order. */
  function PartitionNumbers(ps: seq<TopicPartition>): (ns: seq<Int32>)
    ensures |ns| == |ps|
  {
    seq(|ps|, i requires 0 <= i < |ps| => ps[i].partition)
  }

  /** The `(topic, partition)` pairs a block stands for, in block order. */
  function Expand(b: TopicBlock): (ps: seq<TopicPartition>)
    ensures |ps| == |b.partitions|
  {
    seq(|b.partitions|, k requires 0 <= k < |b.partitions| => TopicPartition(b.topic, b.partitions[k]))
  }

  /** Blocks read back one after another into a flat list, as the decoder
      does: the list holds exactly the pairs some block names. */
  function Flatten(g: seq<TopicBlock>): (ps: seq<TopicPartition>)
    ensures forall tp :: tp in ps <==>
      exists i :: 0 <= i < |g| && g[i].topic == tp.topic && tp.partition in g[i].partitions
  {
    if |g| == 0 then []
    else
      var rest := Flatten(g[1..]);
      assert forall tp :: tp in Expand(g[0]) <==> tp.topic == g[0].topic && tp.partition in g[0].partitions by {
        forall tp: TopicPartition | tp.topic == g[0].topic && tp.partition in g[0].partitions ensures tp in Expand(g[0]) {
          var k :| 0 <= k < |g[0].partitions| && g[0].partitions[k] == tp.partition;
          assert Expand(g[0])[k] == tp;
        }
      }
      assert forall i :: 1 <= i < |g| ==> g[i] == g[1..][i - 1];
      assert forall tp :: tp in rest ==>
        exists i :: 0 <= i < |g| && g[i].topic == tp.topic && tp.partition in g[i].partitions by {
        forall tp: TopicPartition | tp in rest
          ensures exists i :: 0 <= i < |g| && g[i].topic == tp.topic && tp.partition in g[i].partitions
        {
          var j :| 0 <= j < |g[1..]| && g[1..][j].topic == tp.topic && tp.partition in g[1..][j].partitions;
          assert g[j + 1] == g[1..][j];
        }
      }
      Expand(g[0]) + rest
  }

  /** The topics named by the blocks of `g`. */
  function BlockTopics(g: seq<TopicBlock>): set<string>
  {
    set i | 0 <= i < |g| :: g[i].topic
  }

  /** No topic heads two blocks. */
  predicate DistinctBlockTopics(g: seq<TopicBlock>)
  {
    forall i, j :: 0 <= i < j < |g| ==> g[i].topic != g[j].topic
  }

  /** `g` is a grouping of `ps` by topic, in SOME block order: one block per
      distinct topic of `ps`, and each block lists exactly that topic's
      partitions of `ps` in their order in `ps`. This is all the encoder
      relies on; the order of the blocks is left open. */
  predicate ValidGrouping(ps: seq<TopicPartition>, g: seq<TopicBlock>)
  {
    && DistinctBlockTopics(g)
    && BlockTopics(g) == Topics(ps)
    && forall i :: 0 <= i < |g| ==> g[i].partitions == PartitionNumbers(OnTopic(ps, g[i].topic))
  }

  /** Every element of `ps` lies on topic `t`. */
  predicate AllOnTopic(ps: seq<TopicPartition>, t: string)
  {
    forall k :: 0 <= k < |ps| ==> ps[k].topic == t
  }

  /** The partitions of each topic form one contiguous run of `ps`. */
  predicate TopicContiguous(ps: seq<TopicPartition>)
  {
    forall i, j, k :: 0 <= i < j < k < |ps| && ps[i].topic == ps[k].topic ==> ps[j].topic == ps[i].topic
  }

  // ---------------------------------------------------------------------
  // Facts about OnTopic

  lemma {:induction false} OnTopicConcat(a: seq<TopicPartition>, b: seq<TopicPartition>, t: string)
    ensures OnTopic(a + b, t) == OnTopic(a, t) + OnTopic(b, t)
  {
    if |a| > 0 {
      assert (a + b)[0] == a[0];
      assert (a + b)[1..] == a[1..] + b;
      OnTopicConcat(a[1..], b, t);
    } else {
      assert a + b == b;
    }
  }

  lemma {:induction false} OnTopicIsOnTopic(ps: seq<TopicPartition>, t: string)
    ensures AllOnTopic(OnTopic(ps, t), t)
    ensures |OnTopic(ps, t)| <= |ps|
  {
    if |ps| > 0 {
      OnTopicIsOnTopic(ps[1..], t);
    }
  }

  lemma TopicsOfTail(ps: seq<TopicPartition>)
    requires |ps| > 0
    ensures Topics(ps) == {ps[0].topic} + Topics(ps[1..])
  {
    forall t | t in Topics(ps) ensures t in {ps[0].topic} + Topics(ps[1..]) {
      var i :| 0 <= i < |ps| && ps[i].topic == t;
      if i > 0 {
        assert ps[1..][i - 1] == ps[i];
      }
    }
    forall t | t in Topics(ps[1..]) ensures t in Topics(ps) {
      var i :| 0 <= i < |ps[1..]| && ps[1..][i].topic == t;
      assert ps[i + 1] == ps[1..][i];
    }
  }

  lemma TopicsOfSnoc(ps: seq<TopicPartition>, tp: TopicPartition)
    ensures Topics(ps + [tp]) == Topics(ps) + {tp.topic}
  {
    var qs := ps + [tp];
    forall t | t in Topics(qs) ensures t in Topics(ps) + {tp.topic} {
      var i :| 0 <= i < |qs| && qs[i].topic == t;
      if i < |ps| {
        assert qs[i] == ps[i];
      }
    }
    forall t | t in Topics(ps) ensures t in Topics(qs) {
      var i :| 0 <= i < |ps| && ps[i].topic == t;
      assert qs[i] == ps[i];
    }
    assert qs[|ps|] == tp;
  }

  /** A topic that does not occur in `ps` selects nothing. */
  lemma {:induction false} OnTopicAbsent(ps: seq<TopicPartition>, t: string)
    requires t !in Topics(ps)
    ensures OnTopic(ps, t) == []
  {
    if |ps| > 0 {
      TopicsOfTail(ps);
      OnTopicAbsent(ps[1..], t);
    }
  }

  /** A topic that occurs in `ps` selects something. */
  lemma {:induction false} OnTopicPresent(ps: seq<TopicPartition>, t: string)
    requires t in Topics(ps)
    ensures |OnTopic(ps, t)| > 0
  {
    TopicsOfTail(ps);
    if ps[0].topic != t {
      OnTopicPresent(ps[1..], t);
    }
  }

  /** Selecting a topic from a list that lies on a single topic `u`. */
  lemma {:induction false} OnTopicUniform(ps: seq<TopicPartition>, u: string, t: string)
    requires AllOnTopic(ps, u)
    ensures OnTopic(ps, t) == if u == t then ps else []
  {
    if |ps| > 0 {
      OnTopicUniform(ps[1..], u, t);
      if u == t {
        assert ps == [ps[0]] + ps[1..];
      }
    }
  }

  /** An element occurs in `ps` as often as in the selection of its own topic. */
  lemma {:induction false} CountOnTopic(ps: seq<TopicPartition>, x: TopicPartition)
    ensures multiset(ps)[x] == multiset(OnTopic(ps, x.topic))[x]
  {
    if |ps| > 0 {
      CountOnTopic(ps[1..], x);
      assert ps == [ps[0]] + ps[1..];
      assert multiset(ps) == multiset([ps[0]]) + multiset(ps[1..]);
      var head := if ps[0].topic == x.topic then [ps[0]] else [];
      assert multiset(OnTopic(ps, x.topic)) == multiset(head) + multiset(OnTopic(ps[1..], x.topic));
    }
  }

  /** Two lists that agree topic by topic are permutations of each other. */
  lemma SameOnTopicSameMultiset(a: seq<TopicPartition>, b: seq<TopicPartition>)
    requires forall t :: OnTopic(a, t) == OnTopic(b, t)
    ensures multiset(a) == multiset(b)
  {
    forall x ensures multiset(a)[x] == multiset(b)[x] {
      CountOnTopic(a, x);
      CountOnTopic(b, x);
    }
  }

  // ---------------------------------------------------------------------
  // Facts about blocks and Flatten

  lemma ExpandIsOnTopic(b: TopicBlock)
    ensures AllOnTopic(Expand(b), b.topic)
  {
  }

  lemma PartitionNumbersOfExpand(b: TopicBlock)
    ensures PartitionNumbers(Expand(b)) == b.partitions
  {
  }

  /** A single-topic list is rebuilt from its topic and its partition numbers. */
  lemma ExpandPartitionNumbers(ps: seq<TopicPartition>, t: string)
    requires AllOnTopic(ps, t)
    ensures Expand(TopicBlock(t, PartitionNumbers(ps))) == ps
  {
    var q := Expand(TopicBlock(t, PartitionNumbers(ps)));
    forall k | 0 <= k < |ps| ensures q[k] == ps[k] {
      assert ps[k] == TopicPartition(ps[k].topic, ps[k].partition);
    }
  }

  lemma {:induction false} FlattenTopics(g: seq<TopicBlock>)
    ensures forall k :: 0 <= k < |Flatten(g)| ==> Flatten(g)[k].topic in BlockTopics(g)
  {
    if |g| > 0 {
      FlattenTopics(g[1..]);
      var e, f := Expand(g[0]), Flatten(g[1..]);
      assert Flatten(g) == e + f;
      forall k | 0 <= k < |f| ensures f[k].topic in BlockTopics(g) {
        var j :| 0 <= j < |g[1..]| && g[1..][j].topic == f[k].topic;
        assert g[j + 1] == g[1..][j];
      }
      assert g[0].topic in BlockTopics(g);
    }
  }

  lemma BlockTopicsOfTail(g: seq<TopicBlock>)
    requires |g| > 0
    ensures BlockTopics(g) == {g[0].topic} + BlockTopics(g[1..])
    ensures DistinctBlockTopics(g) ==> DistinctBlockTopics(g[1..]) && g[0].topic !in BlockTopics(g[1..])
  {
    forall t | t in BlockTopics(g) ensures t in {g[0].topic} + BlockTopics(g[1..]) {
      var i :| 0 <= i < |g| && g[i].topic == t;
      if i > 0 {
        assert g[1..][i - 1] == g[i];
      }
    }
    forall t | t in BlockTopics(g[1..]) ensures t in BlockTopics(g) {
      var i :| 0 <= i < |g[1..]| && g[1..][i].topic == t;
      assert g[i + 1] == g[1..][i];
    }
    if DistinctBlockTopics(g) {
      forall t | t in BlockTopics(g[1..]) ensures t != g[0].topic {
        var i :| 0 <= i < |g[1..]| && g[1..][i].topic == t;
        assert g[i + 1] == g[1..][i];
      }
    }
  }

  /** Selecting topic `t` from flattened blocks with distinct topics yields
      exactly the block of `t`, or nothing when no block names `t`. */
  lemma {:induction false} FlattenOnTopic(g: seq<TopicBlock>, t: string)
    requires DistinctBlockTopics(g)
    ensures t !in BlockTopics(g) ==> OnTopic(Flatten(g), t) == []
    ensures forall i :: 0 <= i < |g| && g[i].topic == t ==> OnTopic(Flatten(g), t) == Expand(g[i])
  {
    if |g| > 0 {
      BlockTopicsOfTail(g);
      FlattenOnTopic(g[1..], t);
      OnTopicConcat(Expand(g[0]), Flatten(g[1..]), t);
      ExpandIsOnTopic(g[0]);
      OnTopicUniform(Expand(g[0]), g[0].topic, t);
      forall i | 1 <= i < |g| ensures g[i] == g[1..][i - 1] {
      }
    }
  }

  /** A run of one topic followed by a contiguous list that never names
      that topic is still contiguous. */
  lemma RunThenContiguous(e: seq<TopicPartition>, f: seq<TopicPartition>, t: string)
    requires AllOnTopic(e, t) && TopicContiguous(f)
    requires forall k :: 0 <= k < |f| ==> f[k].topic != t
    ensures TopicContiguous(e + f)
  {
    var ps := e + f;
    forall i, j, k | 0 <= i < j < k < |ps| && ps[i].topic == ps[k].topic
      ensures ps[j].topic == ps[i].topic
    {
      if k < |e| {
        assert ps[j] == e[j];
      } else if |e| <= i {
        assert ps[i] == f[i - |e|] && ps[j] == f[j - |e|] && ps[k] == f[k - |e|];
      }
    }
  }

  /** Flattened blocks with distinct topics keep each topic in one run. */
  lemma {:induction false} FlattenIsTopicContiguous(g: seq<TopicBlock>)
    requires DistinctBlockTopics(g)
    ensures TopicContiguous(Flatten(g))
  {
    if |g| > 0 {
      BlockTopicsOfTail(g);
      FlattenIsTopicContiguous(g[1..]);
      FlattenTopics(g[1..]);
      ExpandIsOnTopic(g[0]);
      RunThenContiguous(Expand(g[0]), Flatten(g[1..]), g[0].topic);
    }
  }

  // ---------------------------------------------------------------------
  // What any valid grouping guarantees

  /** Flattening a grouping gives back each topic's partitions of the
      original list, in their original order. */
  lemma GroupingPreservesTopicOrder(ps: seq<TopicPartition>, g: seq<TopicBlock>)
    requires ValidGrouping(ps, g)
    ensures forall t :: OnTopic(Flatten(g), t) == OnTopic(ps, t)
  {
    forall t ensures OnTopic(Flatten(g), t) == OnTopic(ps, t) {
      FlattenOnTopic(g, t);
      if t in Topics(ps) {
        var i :| 0 <= i < |g| && g[i].topic == t;
        OnTopicIsOnTopic(ps, t);
        ExpandPartitionNumbers(OnTopic(ps, t), t);
      } else {
        OnTopicAbsent(ps, t);
      }
    }
  }

  /** Flattening a grouping gives back a permutation of the original list. */
  lemma GroupingIsPermutation(ps: seq<TopicPartition>, g: seq<TopicBlock>)
    requires ValidGrouping(ps, g)
    ensures multiset(Flatten(g)) == multiset(ps)
  {
    GroupingPreservesTopicOrder(ps, g);
    SameOnTopicSameMultiset(Flatten(g), ps);
  }

  lemma {:induction false} DistinctBlockCount(g: seq<TopicBlock>)
    requires DistinctBlockTopics(g)
    ensures |BlockTopics(g)| == |g|
  {
    if |g| > 0 {
      BlockTopicsOfTail(g);
      DistinctBlockCount(g[1..]);
    }
  }

  /** A grouping has one block per distinct topic and no empty block. */
  lemma GroupingShape(ps: seq<TopicPartition>, g: seq<TopicBlock>)
    requires ValidGrouping(ps, g)
    ensures |g| == |Topics(ps)|
    ensures forall i :: 0 <= i < |g| ==> |g[i].partitions| > 0
  {
    DistinctBlockCount(g);
    forall i | 0 <= i < |g| ensures |g[i].partitions| > 0 {
      assert g[i].topic in BlockTopics(g);
      OnTopicPresent(ps, g[i].topic);
    }
  }

  /** Blocks with distinct topics and no empty block are the grouping of
      their own flattening. */
  lemma WellFormedBlocksAreGrouping(g: seq<TopicBlock>)
    requires DistinctBlockTopics(g)
    requires forall i :: 0 <= i < |g| ==> |g[i].partitions| > 0
    ensures ValidGrouping(Flatten(g), g)
  {
    var ps := Flatten(g);
    FlattenTopics(g);
    forall t | t in BlockTopics(g) ensures t in Topics(ps) {
      var i :| 0 <= i < |g| && g[i].topic == t;
      FlattenOnTopic(g, t);
      OnTopicIsOnTopic(ps, t);
      assert |OnTopic(ps, t)| > 0;
      if t !in Topics(ps) {
        OnTopicAbsent(ps, t);
      }
    }
    forall i | 0 <= i < |g| ensures g[i].partitions == PartitionNumbers(OnTopic(ps, g[i].topic)) {
      FlattenOnTopic(g, g[i].topic);
      PartitionNumbersOfExpand(g[i]);
    }
  }

  /** Any two groupings of the same list hold the same blocks, possibly in a
      different order. */
  lemma GroupingUnique(ps: seq<TopicPartition>, g1: seq<TopicBlock>, g2: seq<TopicBlock>)
    requires ValidGrouping(ps, g1) && ValidGrouping(ps, g2)
    ensures |g1| == |g2|
    ensures forall b :: b in g1 <==> b in g2
  {
    GroupingShape(ps, g1);
    GroupingShape(ps, g2);
    forall b | b in g1 ensures b in g2 {
      var i :| 0 <= i < |g1| && g1[i] == b;
      assert b.topic in BlockTopics(g2);
      var j :| 0 <= j < |g2| && g2[j].topic == b.topic;
    }
    forall b | b in g2 ensures b in g1 {
      var i :| 0 <= i < |g2| && g2[i] == b;
      assert b.topic in BlockTopics(g1);
      var j :| 0 <= j < |g1| && g1[j].topic == b.topic;
    }
  }

  // ---------------------------------------------------------------------
  // The grouping the encoder computes

  lemma PartitionNumbersConcat(a: seq<TopicPartition>, b: seq<TopicPartition>)
    ensures PartitionNumbers(a + b) == PartitionNumbers(a) + PartitionNumbers(b)
  {
  }

  /** Appending `tp` to a list extends its grouped map by `tp`'s partition:
      `ps` is `init` followed by `tp`, and `m` is the grouping of `init`. */
  lemma GroupSnoc(ps: seq<TopicPartition>, init: seq<TopicPartition>, tp: TopicPartition, m: map<string, seq<Int32>>)
    requires ps == init + [tp]
    requires m.Keys == Topics(init)
    requires forall t :: t in m ==> m[t] == PartitionNumbers(OnTopic(init, t))
    ensures var m' := m[tp.topic := (if tp.topic in m then m[tp.topic] else []) + [tp.partition]];
      && m'.Keys == Topics(ps)
      && forall t :: t in m' ==> m'[t] == PartitionNumbers(OnTopic(ps, t))
  {
    TopicsOfSnoc(init, tp);
    var m' := m[tp.topic := (if tp.topic in m then m[tp.topic] else []) + [tp.partition]];
    assert [tp][1..] == [];
    forall t | t in m' ensures m'[t] == PartitionNumbers(OnTopic(ps, t)) {
      OnTopicConcat(init, [tp], t);
      PartitionNumbersConcat(OnTopic(init, t), OnTopic([tp], t));
      if t == tp.topic {
        if t !in m {
          OnTopicAbsent(init, t);
        }
        assert OnTopic([tp], t) == [tp];
      } else {
        assert OnTopic([tp], t) == [];
      }
    }
  }

  /** `groupDataByTopic`: a map from each topic to its partition numbers,
      built by one pass that appends each partition to its topic's list. */
  function GroupDataByTopic(ps: seq<TopicPartition>): (m: map<string, seq<Int32>>)
    ensures m.Keys == Topics(ps)
    ensures forall t :: t in m ==> m[t] == PartitionNumbers(OnTopic(ps, t))
  {
    if |ps| == 0 then map[]
    else
      var m := GroupDataByTopic(ps[..|ps| - 1]);
      var tp := ps[|ps| - 1];
      GroupSnoc(ps, ps[..|ps| - 1], tp, m);
      m[tp.topic := (if tp.topic in m then m[tp.topic] else []) + [tp.partition]]
  }

  /** The topics of `ps` in order of first occurrence: the block order the
      model's encoder uses in place of a hash map's iteration order. */
  function FirstOccurrenceOrder(ps: seq<TopicPartition>): (ts: seq<string>)
    ensures forall i, j :: 0 <= i < j < |ts| ==> ts[i] != ts[j]
    ensures forall t :: t in ts <==> t in Topics(ps)
  {
    if |ps| == 0 then []
    else
      var init, tp := ps[..|ps| - 1], ps[|ps| - 1];
      var rest := FirstOccurrenceOrder(init);
      assert ps == init + [tp];
      TopicsOfSnoc(init, tp);
      if tp.topic in rest then rest else rest + [tp.topic]
  }

  /** The blocks the encoder writes for `ps`: the entries of
      `GroupDataByTopic(ps)` taken in first-occurrence order. */
  function GroupedBlocks(ps: seq<TopicPartition>): (g: seq<TopicBlock>)
    ensures ValidGrouping(ps, g)
  {
    var m := GroupDataByTopic(ps);
    var ts := FirstOccurrenceOrder(ps);
    var g := seq(|ts|, i requires 0 <= i < |ts| => TopicBlock(ts[i], m[ts[i]]));
    assert BlockTopics(g) == Topics(ps) by {
      forall t | t in Topics(ps) ensures t in BlockTopics(g) {
        var i :| 0 <= i < |ts| && ts[i] == t;
        assert g[i].topic == t;
      }
    }
    g
  }
}
