/** Whole histories of the store, with any number of restarts, against a map. */
module Runs {
  import opened Common
  import opened MyJqls

  datatype Call = Set(key: String, value: String) | Del(key: String) | Get(key: String, max_size: nat) | Restart

  /** What a call returns: nothing, -1, or the length of a value and the characters copied. */
  datatype Answer = Done | Absent | Found(length: nat, chars: String)

  function Effect(c: Contents, call: Call): Contents {
    match call
    case Set(key, value) => c[key := value]
    case Del(key) => c - {key}
    case _ => c
  }

  function Reply(c: Contents, call: Call): Answer {
    match call
    case Get(key, max_size) =>
      if key !in c then Absent
      else Found(|c[key]|, c[key][..if |c[key]| <= max_size then |c[key]| else max_size])
    case _ => Done
  }

  /** The map after a history. */
  function After(calls: seq<Call>): Contents {
    if calls == [] then map[] else Effect(After(calls[..|calls| - 1]), calls[|calls| - 1])
  }

  /** The answers of a history. */
  function Replies(calls: seq<Call>): seq<Answer> {
    seq(|calls|, i requires 0 <= i < |calls| => Reply(After(calls[..i]), calls[i]))
  }

  predicate Touches(call: Call, key: String) {
    (call.Set? || call.Del?) && call.key == key
  }

  /** Call j sets the key to v, and no later call sets or deletes it. */
  predicate LastSet(calls: seq<Call>, key: String, v: String, j: int) {
    0 <= j < |calls| && calls[j] == Set(key, v) && forall k :: j < k < |calls| ==> !Touches(calls[k], key)
  }

  /** A key has a value after a history exactly if the last call that touches it sets it so. */
  lemma {:induction false} LastSetWins(calls: seq<Call>, key: String, v: String)
    ensures key in After(calls) && After(calls)[key] == v <==> exists j :: LastSet(calls, key, v, j)
  {
    if calls != [] {
      var n := |calls| - 1;
      var before := calls[..n];
      LastSetWins(before, key, v);
      if Touches(calls[n], key) {
        assert calls[n] == Set(key, v) ==> LastSet(calls, key, v, n);
        forall j | LastSet(calls, key, v, j) ensures calls[n] == Set(key, v) {
          assert j == n;
        }
      } else {
        forall j | LastSet(before, key, v, j) ensures LastSet(calls, key, v, j) {
        }
        forall j | LastSet(calls, key, v, j) ensures LastSet(before, key, v, j) {
        }
      }
    }
  }

  /** What the answers tell of the calls themselves: a Get finds the value of the last call that
      touched its key, if that was a Set, in full length and cut off at `max_size` characters, and
      finds nothing exactly if there is no such Set; the other calls return nothing. */
  ghost predicate Answered(calls: seq<Call>, i: nat, answer: Answer)
    requires i < |calls|
  {
    match calls[i]
    case Get(key, max_size) =>
      && (answer == Absent <==> forall v, j :: !LastSet(calls[..i], key, v, j))
      && (forall v, j :: LastSet(calls[..i], key, v, j) ==>
            && answer.Found? && answer.length == |v| && answer.chars <= v
            && |answer.chars| == if |v| <= max_size then |v| else max_size)
    case _ => answer == Done
  }

  lemma RightAnswer(calls: seq<Call>, i: nat)
    requires i < |calls|
    ensures Answered(calls, i, Replies(calls)[i])
  {
    var c, past := After(calls[..i]), calls[..i];
    if calls[i].Get? {
      var key := calls[i].key;
      forall v, j | LastSet(past, key, v, j) ensures key in c && c[key] == v {
        LastSetWins(past, key, v);
      }
      if key in c {
        LastSetWins(past, key, c[key]);
      }
    }
  }

  /** Every answer is the right one. */
  ghost predicate AllAnswered(calls: seq<Call>, replies: seq<Answer>) {
    |replies| == |calls| && forall i :: 0 <= i < |calls| ==> Answered(calls, i, replies[i])
  }

  lemma RightAnswers(calls: seq<Call>)
    ensures AllAnswered(calls, Replies(calls))
  {
    hide Answered;
    forall i | 0 <= i < |calls| ensures Answered(calls, i, Replies(calls)[i]) {
      RightAnswer(calls, i);
    }
  }

  /** One call of a session. */
  method Perform(s: MyJql, call: Call) returns (answer: Answer)
    requires s.Valid() && !call.Restart?
    modifies s.Repr
    ensures s.Valid() && s.contents == Effect(old(s.contents), call) && answer == Reply(old(s.contents), call)
    ensures s.tree.g.lost == old(s.tree.g.lost)
  {
    hide MyJql.Valid;
    match call {
      case Set(key, value) =>
        s.Set(key, value);
        answer := Done;
      case Del(key) =>
        s.Del(key);
        answer := Done;
      case Get(key, max_size) =>
        var value := new Char[max_size];
        var ans := s.Get(key, value, max_size);
        if ans == -1 {
          answer := Absent;
        } else {
          var n := if ans <= max_size then ans else max_size;
          answer := Found(ans, value[..n]);
        }
    }
  }

  /** myjql_close, and myjql_init on the files it leaves.  The tree loses exactly the pages that
      had been cut off and come back. */
  method CloseAndOpen(s: MyJql) returns (s': MyJql)
    requires s.Valid()
    modifies s.Repr
    ensures s'.Valid() && fresh(s'.Repr) && s'.contents == old(s.contents)
    ensures s'.tree.g.lost == old(s.tree.g.lost) + PagesFrom(|old(s.tree.pool.view)|, |s'.tree.pool.view|)
  {
    hide MyJql.Valid, Stored, PagesFrom;
    ghost var contents, lost := s.contents, s.tree.g.lost;
    ghost var length := |s.tree.pool.view|;
    var files := s.Close();
    s' := new MyJql.Reopen(files, contents, lost + PagesFrom(length, |files.idx|));
  }

  /** One call; a restart goes on with another store. */
  method Step(s: MyJql, call: Call) returns (s': MyJql, answer: Answer)
    requires s.Valid()
    modifies s.Repr
    ensures s'.Valid() && fresh(s'.Repr - s.Repr)
    ensures s'.contents == Effect(old(s.contents), call) && answer == Reply(old(s.contents), call)
    ensures !call.Restart? ==> s'.tree.g.lost == old(s.tree.g.lost)
  {
    hide MyJql.Valid;
    if call.Restart? {
      s' := CloseAndOpen(s);
      answer := Done;
    } else {
      s' := s;
      answer := Perform(s, call);
    }
  }

  /** A history of an empty store.  Without a restart no page of the index is ever lost. */
  method History(s: MyJql, calls: seq<Call>) returns (s': MyJql, replies: seq<Answer>)
    requires s.Valid() && s.contents == map[]
    modifies s.Repr
    ensures s'.Valid() && fresh(s'.Repr - s.Repr)
    ensures s'.contents == After(calls) && replies == Replies(calls) && AllAnswered(calls, replies)
    ensures Restart !in calls ==> s'.tree.g.lost == old(s.tree.g.lost)
  {
    hide MyJql.Valid, Effect, Reply, After, Replies, AllAnswered;
    NoCalls();
    s', replies := s, [];
    assert calls[..0] == [];
    for i := 0 to |calls|
      invariant fresh(s'.Repr - s.Repr) && s'.Valid() && s'.contents == After(calls[..i])
      invariant replies == Replies(calls[..i])
      invariant Restart !in calls[..i] ==> s'.tree.g.lost == old(s.tree.g.lost)
    {
      var answer;
      s', answer := Step(s', calls[i]);
      replies := replies + [answer];
      NextReply(calls, i);
      NextCall(calls, i);
    }
    assert calls[..|calls|] == calls;
    RightAnswers(calls);
  }

  lemma NoCalls()
    ensures After([]) == map[] && Replies([]) == []
  {
  }

  lemma NextCall(calls: seq<Call>, i: nat)
    requires i < |calls|
    ensures forall c :: c in calls[..i + 1] <==> c in calls[..i] || c == calls[i]
  {
    assert calls[..i + 1] == calls[..i] + [calls[i]];
  }

  /** Every history of an initially empty store gets the answers that a map would give. */
  method Run(calls: seq<Call>) returns (replies: seq<Answer>)
    ensures replies == Replies(calls) && AllAnswered(calls, replies)
  {
    hide MyJql.Valid, AllAnswered;
    var s := new MyJql.Init();
    s, replies := History(s, calls);
  }

  lemma NextReply(calls: seq<Call>, i: nat)
    requires i < |calls|
    ensures After(calls[..i + 1]) == Effect(After(calls[..i]), calls[i])
    ensures Replies(calls[..i + 1]) == Replies(calls[..i]) + [Reply(After(calls[..i]), calls[i])]
  {
    var now, next := calls[..i], calls[..i + 1];
    assert next[..i] == now;
    forall k | 0 <= k < i ensures Replies(next)[k] == Replies(now)[k] {
      assert next[..k] == now[..k];
    }
  }
}
