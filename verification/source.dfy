/** The simulated source: a repository mapping each resource's basename to its
    timestamp and size, with a counter that hands out fresh basenames. Every
    operation returns the new state, the change events it passed to the
    observers, and the exception that cut it short, if any. The clock, the
    random size draw and the md5 digest are parameters. */
module Sources {
  import opened Wrappers
  import opened Decimal
  import opened Arith
  import opened Resources

  /** What the repository stores per basename. */
  datatype Entry = Entry(timestamp: Timestamp, size: nat)

  datatype Source = Source(averagePayload: int, maxResId: nat, repo: map<string, Entry>)

  datatype ChangeType = CREATE | UPDATE | DELETE

  datatype ChangeEvent = ChangeEvent(changeType: ChangeType, resource: Resource)

  /** The exceptions the operations can raise: a `KeyError` for a basename
      that is not stored, a `ZeroDivisionError` from building the payload of
      the empty basename, and the `ValueError` of `randint(0, a)` for a
      negative average payload. */
  datatype SourceError = UnknownBasename(basename: string) | EmptyBasename | EmptyRange

  /** The outcome of an operation. When `failure` is set, `source` is the state
      as far as the operation got before raising. */
  datatype Step = Step(source: Source, events: seq<ChangeEvent>, failure: Option<SourceError>)

  const ResourceBase: string := "http://localhost:8888/resource/"

  /** `n` copies of `s` one after the other. */
  function Repeat(s: string, n: nat): (r: string)
    ensures |r| == n * |s|
  {
    if n == 0 then "" else s + Repeat(s, n - 1)
  }

  lemma {:induction false} RepeatAt(s: string, n: nat, i: nat)
    requires |s| > 0 && i < n * |s|
    ensures Repeat(s, n)[i] == s[i % |s|]
  {
    if i >= |s| {
      RepeatAt(s, n - 1, i - |s|);
      ModShift(i - |s|, |s|);
    }
  }

  lemma RepeatIndex(s: string, n: nat)
    requires |s| > 0
    ensures forall i :: 0 <= i < |Repeat(s, n)| ==> Repeat(s, n)[i] == s[i % |s|]
  {
    forall i | 0 <= i < |Repeat(s, n)| {
      RepeatAt(s, n, i);
    }
  }

  /** `generate_dummy_payload`: the basename repeated as often as it fits
      whole into `size` characters, then filled up with 'x'. */
  function DummyPayload(b: string, size: nat): (r: Result<string, SourceError>)
    ensures r.Ok? <==> |b| > 0
    ensures r.Err? ==> r.error == EmptyBasename
    ensures r.Ok? ==> |r.value| == size
  {
    if |b| == 0 then Err(EmptyBasename)
    else Ok(Repeat(b, size / |b|) + Repeat("x", size % |b|))
  }

  /** Character by character: the basename cycles through the first
      `size - size % |b|` places, and every remaining place is 'x'. */
  lemma PayloadContent(b: string, size: nat)
    requires |b| > 0
    ensures var p := DummyPayload(b, size).value;
            forall i :: 0 <= i < size ==>
              p[i] == if i < size - size % |b| then b[i % |b|] else 'x'
  {
    var whole := Repeat(b, size / |b|);
    RepeatIndex(b, size / |b|);
    RepeatIndex("x", size % |b|);
    assert |whole| == size - size % |b|;
  }

  /** `resource(basename)`: the URI under the fixed base, the stored timestamp
      and size, and the digest of the dummy payload. */
  function ResourceOf(s: Source, b: string, digest: string -> string): (r: Result<Resource, SourceError>)
    ensures r.Ok? <==> b in s.repo && b != ""
    ensures r.Err? ==> r.error == if b in s.repo then EmptyBasename else UnknownBasename(b)
    ensures r.Ok? ==> r.value.uri == ResourceBase + b
    ensures r.Ok? ==> r.value.lastmod == Some(s.repo[b].timestamp) && r.value.size == Some(s.repo[b].size as int)
    ensures r.Ok? ==> r.value.md5 == Some(digest(DummyPayload(b, s.repo[b].size).value))
  {
    if b !in s.repo then Err(UnknownBasename(b))
    else
      var e := s.repo[b];
      match DummyPayload(b, e.size)
      case Err(err) => Err(err)
      case Ok(p) => Ok(Resource(ResourceBase + b, Some(e.timestamp), Some(e.size), Some(digest(p))))
  }

  /** Distinct basenames give distinct URIs. */
  lemma ResourceUriInjective(s: Source, a: string, b: string, digest: string -> string)
    requires ResourceOf(s, a, digest).Ok? && ResourceOf(s, b, digest).Ok?
    requires ResourceOf(s, a, digest).value.uri == ResourceOf(s, b, digest).value.uri
    ensures a == b
  {
    assert (ResourceBase + a)[|ResourceBase|..] == a;
    assert (ResourceBase + b)[|ResourceBase|..] == b;
  }

  /** `resource_count`. */
  function ResourceCount(s: Source): nat
  {
    |s.repo|
  }

  /** The basename a create files under: the given one, or the counter's
      current value as text. */
  function CreateKey(s: Source, basename: Option<string>): string
  {
    if basename.None? then NatToString(s.maxResId) else basename.value
  }

  /** `create_resource(basename, notify_observers)`, with `now` the clock and
      `size` the draw of `randint(0, average_payload)`. */
  function CreateResource(s: Source, basename: Option<string>, notify: bool, now: Timestamp,
                          size: nat, digest: string -> string): (st: Step)
    requires s.averagePayload >= 0 ==> size <= s.averagePayload
    ensures st.source.averagePayload == s.averagePayload
    ensures st.source.maxResId == if basename.None? then s.maxResId + 1 else s.maxResId
    ensures st.failure == Some(EmptyRange) <==> s.averagePayload < 0
    ensures s.averagePayload < 0 ==> st.source.repo == s.repo && st.events == []
    ensures s.averagePayload >= 0 ==>
              var key := CreateKey(s, basename);
              st.source.repo.Keys == s.repo.Keys + {key}
              && st.source.repo[key] == Entry(now, size)
              && (forall k :: k in s.repo && k != key ==> st.source.repo[k] == s.repo[k])
              && (st.failure.Some? <==> notify && key == "")
              && |st.events| == (if notify && key != "" then 1 else 0)
              && forall e :: e in st.events ==>
                   e == ChangeEvent(CREATE, ResourceOf(st.source, key, digest).value)
  {
    var key := CreateKey(s, basename);
    var counted := if basename.None? then s.(maxResId := s.maxResId + 1) else s;
    if s.averagePayload < 0 then Step(counted, [], Some(EmptyRange))
    else
      var stored := counted.(repo := counted.repo[key := Entry(now, size)]);
      if !notify then Step(stored, [], None)
      else match ResourceOf(stored, key, digest)
        case Ok(r) => Step(stored, [ChangeEvent(CREATE, r)], None)
        case Err(e) => Step(stored, [], Some(e))
  }

  /** `delete_resource(basename, notify_observers)`. The event carries the
      resource as it was, re-stamped with the deletion time `now`. */
  function DeleteResource(s: Source, b: string, notify: bool, now: Timestamp,
                          digest: string -> string): (st: Step)
    ensures st.source.averagePayload == s.averagePayload && st.source.maxResId == s.maxResId
    ensures st.failure.None? <==> b in s.repo && b != ""
    ensures st.failure.Some? ==> st.source == s && st.events == []
    ensures st.failure.None? ==>
              st.source.repo.Keys == s.repo.Keys - {b}
              && (forall k :: k in st.source.repo ==> st.source.repo[k] == s.repo[k])
              && st.events == if notify
                              then [ChangeEvent(DELETE, ResourceOf(s, b, digest).value.(lastmod := Some(now)))]
                              else []
  {
    match ResourceOf(s, b, digest)
    case Err(e) => Step(s, [], Some(e))
    case Ok(r) =>
      var removed := s.(repo := s.repo - {b});
      Step(removed, if notify then [ChangeEvent(DELETE, r.(lastmod := Some(now)))] else [], None)
  }

  /** `update_resource(basename)`: a silent delete, a silent create under the
      same basename, then one UPDATE event. When the size draw fails, the
      delete has already happened. */
  function UpdateResource(s: Source, b: string, now: Timestamp, size: nat,
                          digest: string -> string): (st: Step)
    requires s.averagePayload >= 0 ==> size <= s.averagePayload
    ensures st.source.averagePayload == s.averagePayload && st.source.maxResId == s.maxResId
    ensures b !in s.repo ==> st == Step(s, [], Some(UnknownBasename(b)))
    ensures b in s.repo && b == "" ==> st == Step(s, [], Some(EmptyBasename))
    ensures b in s.repo && b != "" && s.averagePayload < 0 ==>
              st.failure == Some(EmptyRange) && st.events == [] && st.source.repo.Keys == s.repo.Keys - {b}
    ensures st.failure.None? <==> b in s.repo && b != "" && s.averagePayload >= 0
    ensures st.failure.None? ==>
              st.source.repo.Keys == s.repo.Keys
              && st.source.repo[b] == Entry(now, size)
              && (forall k :: k in s.repo && k != b ==> st.source.repo[k] == s.repo[k])
              && st.events == [ChangeEvent(UPDATE, ResourceOf(st.source, b, digest).value)]
  {
    var del := DeleteResource(s, b, false, now, digest);
    if del.failure.Some? then del
    else
      var cre := CreateResource(del.source, Some(b), false, now, size, digest);
      if cre.failure.Some? then cre
      else
        assert ResourceOf(cre.source, b, digest).Ok?;
        Step(cre.source, [ChangeEvent(UPDATE, ResourceOf(cre.source, b, digest).value)], None)
  }

  /** The basenames the counter hands out from `lo` up to but excluding `hi`. */
  function IdRange(lo: nat, hi: nat): set<string>
  {
    set i | lo <= i < hi :: NatToString(i)
  }

  lemma IdRangeStep(lo: nat, hi: nat)
    requires lo <= hi
    ensures IdRange(lo, hi + 1) == IdRange(lo, hi) + {NatToString(hi)}
  {
  }

  /** The counter is ahead of every stored basename: each one is `str(i)` for
      some `i` below `max_res_id`. */
  predicate Valid(s: Source)
  {
    forall k :: k in s.repo ==> exists i :: 0 <= i < s.maxResId && k == NatToString(i)
  }

  lemma {:induction false} FreshKeyIsNew(s: Source)
    requires Valid(s)
    ensures NatToString(s.maxResId) !in s.repo
  {
    if NatToString(s.maxResId) in s.repo {
      var i :| 0 <= i < s.maxResId && NatToString(s.maxResId) == NatToString(i);
      NatToStringInjective(i, s.maxResId);
    }
  }

  /** A create without a basename keeps the invariant and never overwrites:
      the count grows by exactly one. */
  lemma {:induction false} CreateFreshValid(s: Source, notify: bool, now: Timestamp, size: nat, digest: string -> string)
    requires Valid(s)
    requires s.averagePayload >= 0 ==> size <= s.averagePayload
    ensures var st := CreateResource(s, None, notify, now, size, digest);
            Valid(st.source)
            && (s.averagePayload >= 0 ==>
                  st.failure.None? && NatToString(s.maxResId) !in s.repo
                  && ResourceCount(st.source) == ResourceCount(s) + 1
                  && st.events == if notify then [ChangeEvent(CREATE, ResourceOf(st.source, NatToString(s.maxResId), digest).value)] else [])
  {
    var st := CreateResource(s, None, notify, now, size, digest);
    var key := NatToString(s.maxResId);
    FreshKeyIsNew(s);
    forall k | k in st.source.repo
      ensures exists i :: 0 <= i < st.source.maxResId && k == NatToString(i)
    {
      if k == key {
        assert 0 <= s.maxResId < st.source.maxResId;
      } else {
        var i :| 0 <= i < s.maxResId && k == NatToString(i);
        assert i < st.source.maxResId;
      }
    }
    if s.averagePayload >= 0 {
      assert st.source.repo.Keys == s.repo.Keys + {key};
      assert |st.source.repo.Keys| == |s.repo.Keys| + 1;
      if notify {
        assert |st.events| == 1;
        assert st.events[0] in st.events;
      }
    }
  }

  /** Under the invariant every stored basename is non-empty, so looking a
      stored resource up never fails. */
  lemma ValidLookup(s: Source, b: string, digest: string -> string)
    requires Valid(s) && b in s.repo
    ensures ResourceOf(s, b, digest).Ok?
  {
    var i :| 0 <= i < s.maxResId && b == NatToString(i);
  }

  /** Deleting a stored basename keeps the invariant and shrinks the count by
      one. */
  lemma DeleteValid(s: Source, b: string, notify: bool, now: Timestamp, digest: string -> string)
    requires Valid(s)
    ensures var st := DeleteResource(s, b, notify, now, digest);
            Valid(st.source)
            && (b in s.repo ==> st.failure.None? && ResourceCount(st.source) == ResourceCount(s) - 1)
  {
    if b in s.repo {
      ValidLookup(s, b, digest);
      var st := DeleteResource(s, b, notify, now, digest);
      assert st.source.repo.Keys == s.repo.Keys - {b};
    }
  }

  /** Updating a stored basename keeps the invariant and the count, and so
      does a failed update, which at most loses the basename. */
  lemma UpdateValid(s: Source, b: string, now: Timestamp, size: nat, digest: string -> string)
    requires Valid(s)
    requires s.averagePayload >= 0 ==> size <= s.averagePayload
    ensures var st := UpdateResource(s, b, now, size, digest);
            Valid(st.source)
            && (b in s.repo && s.averagePayload >= 0 ==> st.failure.None? && ResourceCount(st.source) == ResourceCount(s))
  {
    if b in s.repo {
      ValidLookup(s, b, digest);
    }
  }

  /** Deleting what a fresh create just filed gives back the repository the
      create started from. */
  lemma CreateThenDelete(s: Source, now: Timestamp, size: nat, later: Timestamp, digest: string -> string)
    requires Valid(s) && s.averagePayload >= 0 && size <= s.averagePayload
    ensures var created := CreateResource(s, None, true, now, size, digest);
            var deleted := DeleteResource(created.source, NatToString(s.maxResId), true, later, digest);
            deleted.failure.None? && deleted.source.repo == s.repo && deleted.source.maxResId == s.maxResId + 1
            && deleted.events == [ChangeEvent(DELETE, Resource(created.events[0].resource.uri, Some(later),
                                                                Some(size), created.events[0].resource.md5))]
  {
    var created := CreateResource(s, None, true, now, size, digest);
    CreateFreshValid(s, true, now, size, digest);
    var key := NatToString(s.maxResId);
    var deleted := DeleteResource(created.source, key, true, later, digest);
    assert deleted.source.repo == s.repo;
  }

  /** The repository after `n` silent fresh creates starting with the counter
      at `lo`: the `j`-th files `str(lo + j)` with the draw `draw(j)`. */
  function Filed(repo: map<string, Entry>, lo: nat, n: nat, draw: nat -> (Timestamp, nat)): map<string, Entry>
  {
    if n == 0 then repo
    else Filed(repo, lo, n - 1, draw)[NatToString(lo + n - 1) := Entry(draw(n - 1).0, draw(n - 1).1)]
  }

  /** The keys filed are the old ones and the `n` basenames handed out. */
  lemma {:induction false} FiledKeys(repo: map<string, Entry>, lo: nat, n: nat, draw: nat -> (Timestamp, nat))
    ensures Filed(repo, lo, n, draw).Keys == repo.Keys + IdRange(lo, lo + n)
  {
    if n > 0 {
      FiledKeys(repo, lo, n - 1, draw);
      IdRangeStep(lo, lo + n - 1);
    }
  }

  /** Basename `str(v)` holds the draw of the create that handed it out. */
  lemma {:induction false} FiledDraws(repo: map<string, Entry>, lo: nat, n: nat, draw: nat -> (Timestamp, nat), v: nat)
    requires lo <= v < lo + n
    ensures NatToString(v) in Filed(repo, lo, n, draw)
    ensures Filed(repo, lo, n, draw)[NatToString(v)] == Entry(draw(v - lo).0, draw(v - lo).1)
  {
    if v < lo + n - 1 {
      FiledDraws(repo, lo, n - 1, draw, v);
      if NatToString(v) == NatToString(lo + n - 1) {
        NatToStringInjective(v, lo + n - 1);
      }
    }
  }

  /** Every other entry is as it was. */
  lemma {:induction false} FiledOthers(repo: map<string, Entry>, lo: nat, n: nat, draw: nat -> (Timestamp, nat), k: string)
    requires k in repo && k !in IdRange(lo, lo + n)
    ensures k in Filed(repo, lo, n, draw) && Filed(repo, lo, n, draw)[k] == repo[k]
  {
    if n > 0 {
      IdRangeStep(lo, lo + n - 1);
      FiledOthers(repo, lo, n - 1, draw, k);
    }
  }

  /** `bootstrap`: `n` silent creates without a basename, the `i`-th drawing
      its timestamp and size from `draw(i)`. */
  method Bootstrap(s: Source, n: int, draw: nat -> (Timestamp, nat), digest: string -> string) returns (st: Step)
    requires s.averagePayload >= 0 ==> forall i: nat :: i < n ==> draw(i).1 <= s.averagePayload
    ensures st.events == [] && st.source.averagePayload == s.averagePayload
    ensures n > 0 && s.averagePayload < 0 ==>
              st.failure == Some(EmptyRange) && st.source == s.(maxResId := s.maxResId + 1)
    ensures n <= 0 || s.averagePayload >= 0 ==>
              var count := if n < 0 then 0 else n;
              st.failure.None?
              && st.source.maxResId == s.maxResId + count
              && st.source.repo == Filed(s.repo, s.maxResId, count, draw)
  {
    if n > 0 && s.averagePayload < 0 {
      return CreateResource(s, None, false, draw(0).0, draw(0).1, digest);
    }
    var cur := s;
    var i: nat := 0;
    while i < n
      invariant n > 0 ==> i <= n
      invariant n <= 0 ==> i == 0
      invariant cur.averagePayload == s.averagePayload
      invariant cur.maxResId == s.maxResId + i
      invariant cur.repo == Filed(s.repo, s.maxResId, i, draw)
    {
      cur := CreateResource(cur, None, false, draw(i).0, draw(i).1, digest).source;
      i := i + 1;
    }
    st := Step(cur, [], None);
  }

  /** `Source(config)`: an empty repository with the counter at zero,
      bootstrapped with `n` resources. The basenames are "0" up to `n - 1`,
      the invariant holds, and nobody is notified. */
  method NewSource(averagePayload: int, n: int, draw: nat -> (Timestamp, nat), digest: string -> string)
    returns (st: Step)
    requires averagePayload >= 0 ==> forall i: nat :: i < n ==> draw(i).1 <= averagePayload
    ensures st.events == []
    ensures st.failure.None? <==> n <= 0 || averagePayload >= 0
    ensures st.failure.None? ==>
              var count := if n < 0 then 0 else n;
              Valid(st.source)
              && st.source.repo.Keys == IdRange(0, count)
              && ResourceCount(st.source) == count
              && st.source.maxResId == count
              && forall v: nat :: v < count ==> st.source.repo[NatToString(v)] == Entry(draw(v).0, draw(v).1)
  {
    st := Bootstrap(Source(averagePayload, 0, map[]), n, draw, digest);
    if st.failure.None? {
      FreshlyFiled(averagePayload, if n < 0 then 0 else n, draw);
    }
  }

  /** What a bootstrap from nothing files: the basenames "0" up to
      `count - 1` with their draws, all below the counter. */
  lemma FreshlyFiled(averagePayload: int, count: nat, draw: nat -> (Timestamp, nat))
    ensures var repo := Filed(map[], 0, count, draw);
            Valid(Source(averagePayload, count, repo))
            && repo.Keys == IdRange(0, count)
            && |repo| == count
            && forall v: nat :: v < count ==> repo[NatToString(v)] == Entry(draw(v).0, draw(v).1)
  {
    var repo := Filed(map[], 0, count, draw);
    FiledKeys(map[], 0, count, draw);
    assert repo.Keys == IdRange(0, count);
    IdRangeCount(count);
    assert |repo| == |repo.Keys|;
    forall v: nat | v < count
      ensures repo[NatToString(v)] == Entry(draw(v).0, draw(v).1)
    {
      FiledDraws(map[], 0, count, draw, v);
    }
    forall k | k in repo
      ensures exists i :: 0 <= i < count && k == NatToString(i)
    {
      assert k in IdRange(0, count);
    }
  }

  /** The first `n` counter values give `n` distinct basenames. */
  lemma {:induction false} IdRangeCount(n: nat)
    ensures |IdRange(0, n)| == n
  {
    if n > 0 {
      IdRangeCount(n - 1);
      IdRangeStep(0, n - 1);
      if NatToString(n - 1) in IdRange(0, n - 1) {
        var i :| 0 <= i < n - 1 && NatToString(i) == NatToString(n - 1);
        NatToStringInjective(i, n - 1);
      }
    }
  }
}
