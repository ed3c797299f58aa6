/*
 * The proxy server (src/django_quik/server/__init__.py): the registry of
 * live-reload listeners, the broadcast that runs when a watched file
 * changes, the script injected into HTML pages, the routing of one request
 * and the HTML branch of the response relay.
 *
 * Threads, the lock, timers, the file watcher and the accepting loop are not
 * modelled: every operation below is one sequential step. The uuids the
 * server draws are parameters, and so is the connection it opens to the
 * Django server.
 */
module Server {
  import opened Text
  import opened HttpStream
  import opened HttpHeaders

  /** The settings the server runs with (`Configuration` in config.py). */
  datatype Configuration = Configuration(host: string, port: int, proxyPort: int, watchDirs: seq<string>)

  /** The text of the uuid that names one event-stream client. */
  type StreamId = string

  /**
   * A registered callback. The only callbacks the server registers are the
   * closures of serve_refresh_event_page: send one event to `client` and, if
   * that fails, remove the entry `id` from the registry.
   */
  datatype Callback = FileChange(client: Stream, id: StreamId)

  datatype Entry = Entry(key: StreamId, callback: Callback)

  // ---------------------------------------------------------------------------
  // The registry as a value: an insertion-ordered dict
  // ---------------------------------------------------------------------------

  function Keys(entries: seq<Entry>): (keys: seq<StreamId>)
    ensures |keys| == |entries| && forall i :: 0 <= i < |entries| ==> keys[i] == entries[i].key
  {
    seq(|entries|, i requires 0 <= i < |entries| => entries[i].key)
  }

  predicate UniqueKeys(entries: seq<Entry>)
  {
    forall i, j :: 0 <= i < j < |entries| ==> entries[i].key != entries[j].key
  }

  /** `dict.get(key)`. */
  function Lookup(entries: seq<Entry>, key: StreamId): Option<Callback>
  {
    if |entries| == 0 then None
    else if entries[0].key == key then Some(entries[0].callback)
    else Lookup(entries[1..], key)
  }

  /** `dict.setdefault(key, callback)`: a new key goes last, a present key keeps its callback. */
  function SetDefault(entries: seq<Entry>, key: StreamId, callback: Callback): seq<Entry>
  {
    if key in Keys(entries) then entries else entries + [Entry(key, callback)]
  }

  /** The entries whose key is not in `keys`, in their order: `del` of each of those keys. */
  function RemoveAll(entries: seq<Entry>, keys: set<StreamId>): seq<Entry>
  {
    if |entries| == 0 then []
    else (if entries[0].key in keys then [] else [entries[0]]) + RemoveAll(entries[1..], keys)
  }

  lemma {:induction false} LookupKeys(entries: seq<Entry>, key: StreamId)
    ensures Lookup(entries, key).Some? <==> key in Keys(entries)
  {
    if |entries| > 0 {
      LookupKeys(entries[1..], key);
      assert Keys(entries) == [entries[0].key] + Keys(entries[1..]);
    }
  }

  lemma {:induction false} LookupAppend(entries: seq<Entry>, e: Entry, key: StreamId)
    ensures Lookup(entries + [e], key) ==
              if Lookup(entries, key).Some? then Lookup(entries, key)
              else if e.key == key then Some(e.callback) else None
  {
    if |entries| > 0 {
      assert (entries + [e])[1..] == entries[1..] + [e];
      LookupAppend(entries[1..], e, key);
    }
  }

  /** set_callback is insert-if-absent: only an absent key changes, and it gets the new callback. */
  lemma SetDefaultLookup(entries: seq<Entry>, key: StreamId, callback: Callback, other: StreamId)
    ensures Lookup(SetDefault(entries, key, callback), other) ==
              if other == key && Lookup(entries, key).None? then Some(callback) else Lookup(entries, other)
  {
    LookupKeys(entries, key);
    LookupAppend(entries, Entry(key, callback), other);
  }

  lemma SetDefaultUnique(entries: seq<Entry>, key: StreamId, callback: Callback)
    requires UniqueKeys(entries)
    ensures UniqueKeys(SetDefault(entries, key, callback))
  {
    if key !in Keys(entries) {
      var r := entries + [Entry(key, callback)];
      forall i, j | 0 <= i < j < |r| ensures r[i].key != r[j].key {
        if j == |entries| {
          assert r[i].key == Keys(entries)[i];
        }
      }
    }
  }

  /** remove_callback: the removed keys are gone and every other key keeps its callback. */
  lemma {:induction false} RemoveAllLookup(entries: seq<Entry>, keys: set<StreamId>, other: StreamId)
    ensures Lookup(RemoveAll(entries, keys), other) == if other in keys then None else Lookup(entries, other)
  {
    if |entries| > 0 {
      RemoveAllLookup(entries[1..], keys, other);
      var rest := RemoveAll(entries[1..], keys);
      if entries[0].key !in keys {
        assert RemoveAll(entries, keys) == [entries[0]] + rest;
        assert ([entries[0]] + rest)[0] == entries[0];
        assert ([entries[0]] + rest)[1..] == rest;
      } else {
        assert RemoveAll(entries, keys) == rest;
      }
    }
  }

  lemma {:induction false} RemoveAllMember(entries: seq<Entry>, keys: set<StreamId>, e: Entry)
    ensures e in RemoveAll(entries, keys) <==> e in entries && e.key !in keys
  {
    if |entries| > 0 {
      RemoveAllMember(entries[1..], keys, e);
      assert entries == [entries[0]] + entries[1..];
    }
  }

  lemma {:induction false} RemoveAllUnique(entries: seq<Entry>, keys: set<StreamId>)
    requires UniqueKeys(entries)
    ensures UniqueKeys(RemoveAll(entries, keys))
  {
    if |entries| > 0 {
      var tail := entries[1..];
      RemoveAllUnique(tail, keys);
      var rest := RemoveAll(tail, keys);
      if entries[0].key !in keys {
        var r := [entries[0]] + rest;
        forall i, j | 0 <= i < j < |r| ensures r[i].key != r[j].key {
          if i == 0 {
            assert r[j] == rest[j - 1];
            assert r[j] in rest;
            RemoveAllMember(tail, keys, r[j]);
            var k :| 0 <= k < |tail| && tail[k] == r[j];
            assert entries[k + 1] == r[j];
          } else {
            assert r[i] == rest[i - 1] && r[j] == rest[j - 1];
          }
        }
      }
    }
  }

  /** Removing one key set and then another removes their union. */
  lemma {:induction false} RemoveAllUnion(entries: seq<Entry>, a: set<StreamId>, b: set<StreamId>)
    ensures RemoveAll(RemoveAll(entries, a), b) == RemoveAll(entries, a + b)
  {
    if |entries| > 0 {
      var e := entries[0];
      RemoveAllUnion(entries[1..], a, b);
      var rest := RemoveAll(entries[1..], a);
      if e.key in a {
        assert RemoveAll(entries, a) == rest;
      } else {
        assert RemoveAll(entries, a) == [e] + rest;
        assert ([e] + rest)[1..] == rest;
        assert RemoveAll([e] + rest, b) == (if e.key in b then [] else [e]) + RemoveAll(rest, b);
      }
    }
  }

  lemma {:induction false} RemoveNone(entries: seq<Entry>)
    ensures RemoveAll(entries, {}) == entries
  {
    if |entries| > 0 {
      RemoveNone(entries[1..]);
      assert entries == [entries[0]] + entries[1..];
    }
  }

  /** Removing a key that is not there changes nothing. */
  lemma {:induction false} RemoveAbsent(entries: seq<Entry>, key: StreamId)
    requires Lookup(entries, key).None?
    ensures RemoveAll(entries, {key}) == entries
  {
    if |entries| > 0 {
      RemoveAbsent(entries[1..], key);
      assert entries == [entries[0]] + entries[1..];
    }
  }

  // ---------------------------------------------------------------------------
  // ThreadSafeChangeCallbacks
  // ---------------------------------------------------------------------------

  /**
   * `ThreadSafeChangeCallbacks`: the dict from stream ids to callbacks. The
   * lock is not modelled; every operation is one atomic step.
   */
  class ChangeCallbacks {
    const configuration: Configuration
    var entries: seq<Entry>

    ghost predicate Valid()
      reads this
    {
      UniqueKeys(entries)
    }

    constructor (configuration: Configuration)
      ensures this.configuration == configuration && entries == [] && Valid()
    {
      this.configuration := configuration;
      entries := [];
    }

    /** `set_callback`: `setdefault`, so a key already present keeps its first callback. */
    method SetCallback(key: StreamId, callback: Callback)
      requires Valid()
      modifies this
      ensures Valid()
      ensures entries == SetDefault(old(entries), key, callback)
    {
      SetDefaultUnique(entries, key, callback);
      if key !in Keys(entries) {
        entries := entries + [Entry(key, callback)];
      }
    }

    /** `remove_callback`: delete the key if present (every callback is truthy), else nothing. */
    method RemoveCallback(key: StreamId)
      requires Valid()
      modifies this
      ensures Valid()
      ensures entries == RemoveAll(old(entries), {key})
    {
      if Lookup(entries, key).Some? {
        RemoveAllUnique(entries, {key});
        entries := RemoveAll(entries, {key});
      } else {
        RemoveAbsent(entries, key);
      }
    }

    /** `get_all`: a copy; being a value, later changes to the registry do not reach it. */
    method GetAll() returns (snapshot: seq<Entry>)
      ensures snapshot == entries
    {
      snapshot := entries;
    }
  }

  // ---------------------------------------------------------------------------
  // FilesWatchEventHandler.trigger_notify
  // ---------------------------------------------------------------------------

  /** The event each listener receives: one server-sent event with a data field. */
  const Notice: Bytes := "data: file changed\n\n"

  /** n copies of s. */
  function Repeat(s: Bytes, n: nat): Bytes
  {
    if n == 0 then "" else Repeat(s, n - 1) + s
  }

  /** The sockets behind the registered callbacks. */
  function Sockets(entries: seq<Entry>): set<Socket>
  {
    set e | e in entries :: e.callback.client.sock
  }

  /** Those sockets on which a send succeeds. */
  ghost function LiveSockets(entries: seq<Entry>): set<Socket>
    reads Sockets(entries)
  {
    set s | s in Sockets(entries) && s.Writable()
  }

  /** How many entries notify socket `s`. */
  function Count(entries: seq<Entry>, s: Socket): nat
  {
    if |entries| == 0 then 0
    else Count(entries[..|entries| - 1], s) + (if entries[|entries| - 1].callback.client.sock == s then 1 else 0)
  }

  /** The ids the callbacks of `entries` remove, given the sockets on which a send succeeds. */
  function FailedIds(entries: seq<Entry>, live: set<Socket>): set<StreamId>
  {
    if |entries| == 0 then {}
    else
      var c := entries[|entries| - 1].callback;
      FailedIds(entries[..|entries| - 1], live) + (if c.client.sock in live then {} else {c.id})
  }

  lemma NoticeStep(before: Bytes, now: Bytes, after: Bytes, n: nat, hit: bool)
    requires now == before + Repeat(Notice, n)
    requires after == if hit then now + Notice else now
    ensures after == before + Repeat(Notice, n + if hit then 1 else 0)
  {
    if hit {
      assert Repeat(Notice, n + 1) == Repeat(Notice, n) + Notice;
    }
  }

  lemma CountStep(entries: seq<Entry>, i: nat, s: Socket)
    requires i < |entries|
    ensures Count(entries[..i + 1], s) ==
              Count(entries[..i], s) + (if entries[i].callback.client.sock == s then 1 else 0)
  {
    assert entries[..i + 1][..i] == entries[..i];
  }

  lemma FailedIdsStep(entries: seq<Entry>, i: nat, live: set<Socket>)
    requires i < |entries|
    ensures FailedIds(entries[..i + 1], live) ==
              FailedIds(entries[..i], live)
              + (if entries[i].callback.client.sock in live then {} else {entries[i].callback.id})
  {
    assert entries[..i + 1][..i] == entries[..i];
  }

  /**
   * Calling a registered callback (`file_change_callback`): send the event to
   * its client; if the send fails, remove its id from the registry. Of the
   * sockets in `watched`, only the client's own changes, and only in what it
   * has received.
   */
  method CallFileChange(callbacks: ChangeCallbacks, callback: Callback, ghost watched: set<Socket>) returns (ok: bool)
    requires callbacks.Valid()
    modifies callbacks, callback.client.sock
    ensures callbacks.Valid()
    ensures forall s :: s in watched ==>
              s.unread == old(s.unread) && s.closed == old(s.closed) && s.Writable() == old(s.Writable())
    ensures forall s :: s in watched ==>
              s.sent == if s == callback.client.sock && ok then old(s.sent) + Notice else old(s.sent)
    ensures ok == old(callback.client.sock.Writable())
    ensures callback.client.sock.sent == if ok then old(callback.client.sock.sent) + Notice else old(callback.client.sock.sent)
    ensures callback.client.sock.unread == old(callback.client.sock.unread)
    ensures callback.client.sock.closed == old(callback.client.sock.closed)
    ensures callbacks.entries == if ok then old(callbacks.entries) else RemoveAll(old(callbacks.entries), {callback.id})
  {
    ok := callback.client.WriteChunk(Notice);
    if !ok {
      callbacks.RemoveCallback(callback.id);
    }
  }

  /**
   * Step i of trigger_notify: call the callback of entry i of the snapshot.
   * Given how much each socket has received since `start`, its client's
   * socket receives one more event if it accepts data, and the registry loses
   * the callback's id exactly when that socket refuses it.
   */
  method NotifyAt(callbacks: ChangeCallbacks, snapshot: seq<Entry>, i: nat,
                  ghost live: set<Socket>, ghost start: map<Socket, Bytes>)
    requires i < |snapshot| && callbacks.Valid()
    requires callbacks.entries == RemoveAll(snapshot, FailedIds(snapshot[..i], live))
    requires forall s :: s in Sockets(snapshot) ==> s in start && (s in live <==> s.Writable())
    requires forall s :: s in Sockets(snapshot) && s !in live ==> s.sent == start[s]
    requires forall s :: s in Sockets(snapshot) && s in live ==> s.sent == start[s] + Repeat(Notice, Count(snapshot[..i], s))
    modifies callbacks, snapshot[i].callback.client.sock
    ensures callbacks.Valid()
    ensures callbacks.entries == RemoveAll(snapshot, FailedIds(snapshot[..i + 1], live))
    ensures forall s :: s in Sockets(snapshot) ==>
              && s.unread == old(s.unread) && s.closed == old(s.closed) && (s in live <==> s.Writable())
    ensures forall s :: s in Sockets(snapshot) && s !in live ==> s.sent == start[s]
    ensures forall s :: s in Sockets(snapshot) && s in live ==> s.sent == start[s] + Repeat(Notice, Count(snapshot[..i + 1], s))
  {
    var callback := snapshot[i].callback;
    assert snapshot[i] in snapshot;
    ghost var sock := callback.client.sock;
    var ok := CallFileChange(callbacks, callback, Sockets(snapshot));
    assert ok <==> sock in live;
    RegistryStep(snapshot, i, live, ok, old(callbacks.entries), callbacks.entries);
    // a socket that refuses data has received nothing
    forall s | s in Sockets(snapshot) && s !in live
      ensures s.sent == start[s]
    {
      assert !(s == sock && ok);
    }
    forall s | s in Sockets(snapshot) && s in live
      ensures s.sent == start[s] + Repeat(Notice, Count(snapshot[..i + 1], s))
    {
      SentStep(snapshot, i, s, start[s], old(s.sent), s.sent);
    }
  }

  /** One more entry of the snapshot: the registry loses its id exactly when its socket refuses the event. */
  lemma RegistryStep(snapshot: seq<Entry>, i: nat, live: set<Socket>, ok: bool, before: seq<Entry>, after: seq<Entry>)
    requires i < |snapshot|
    requires before == RemoveAll(snapshot, FailedIds(snapshot[..i], live))
    requires ok <==> snapshot[i].callback.client.sock in live
    requires after == if ok then before else RemoveAll(before, {snapshot[i].callback.id})
    ensures after == RemoveAll(snapshot, FailedIds(snapshot[..i + 1], live))
  {
    var failed := FailedIds(snapshot[..i], live);
    FailedIdsStep(snapshot, i, live);
    if ok {
      assert failed + {} == failed;
    } else {
      RemoveAllUnion(snapshot, failed, {snapshot[i].callback.id});
    }
  }

  /** One more entry of the snapshot: its socket has received one more event. */
  lemma SentStep(entries: seq<Entry>, i: nat, s: Socket, start: Bytes, before: Bytes, after: Bytes)
    requires i < |entries|
    requires before == start + Repeat(Notice, Count(entries[..i], s))
    requires after == if entries[i].callback.client.sock == s then before + Notice else before
    ensures after == start + Repeat(Notice, Count(entries[..i + 1], s))
  {
    CountStep(entries, i, s);
    NoticeStep(start, before, after, Count(entries[..i], s), entries[i].callback.client.sock == s);
  }

  /**
   * The loop of trigger_notify over a snapshot, from a state in which the
   * registry equals the snapshot and socket s has received start[s]: at the
   * end every live socket has received one event per entry that names it, and
   * the registry has lost the ids of the entries whose send failed.
   */
  method NotifyAll(callbacks: ChangeCallbacks, snapshot: seq<Entry>,
                   ghost live: set<Socket>, ghost start: map<Socket, Bytes>)
    requires callbacks.Valid() && callbacks.entries == snapshot
    requires forall s :: s in Sockets(snapshot) ==> s in start && s.sent == start[s] && (s in live <==> s.Writable())
    modifies callbacks, Sockets(snapshot)
    ensures callbacks.Valid()
    ensures callbacks.entries == RemoveAll(snapshot, FailedIds(snapshot, live))
    ensures forall s :: s in Sockets(snapshot) ==> s.unread == old(s.unread) && s.closed == old(s.closed)
    ensures forall s :: s in Sockets(snapshot) && s !in live ==> s.sent == start[s]
    ensures forall s :: s in Sockets(snapshot) && s in live ==> s.sent == start[s] + Repeat(Notice, Count(snapshot, s))
  {
    assert snapshot[..0] == [];
    RemoveNone(snapshot);
    for i := 0 to |snapshot|
      invariant callbacks.Valid()
      invariant callbacks.entries == RemoveAll(snapshot, FailedIds(snapshot[..i], live))
      invariant forall s :: s in Sockets(snapshot) ==>
                  && s.unread == old(s.unread) && s.closed == old(s.closed) && (s in live <==> s.Writable())
      invariant forall s :: s in Sockets(snapshot) && s !in live ==> s.sent == start[s]
      invariant forall s :: s in Sockets(snapshot) && s in live ==> s.sent == start[s] + Repeat(Notice, Count(snapshot[..i], s))
    {
      NotifyAt(callbacks, snapshot, i, live, start);
    }
    assert snapshot[..|snapshot|] == snapshot;
  }

  /**
   * `trigger_notify`: call every callback of a snapshot of the registry, once
   * each and in order, even when a callback removes itself on the way. Every
   * listener whose socket accepts data receives the event once per entry;
   * every callback whose send fails removes its id.
   */
  method TriggerNotify(callbacks: ChangeCallbacks)
    requires callbacks.Valid()
    modifies callbacks, Sockets(callbacks.entries)
    ensures callbacks.Valid()
    ensures callbacks.entries ==
              RemoveAll(old(callbacks.entries), FailedIds(old(callbacks.entries), old(LiveSockets(callbacks.entries))))
    ensures forall s :: s in Sockets(old(callbacks.entries)) ==> s.unread == old(s.unread) && s.closed == old(s.closed)
    ensures forall s :: s in Sockets(old(callbacks.entries)) && !old(s.Writable()) ==> s.sent == old(s.sent)
    ensures forall s :: s in Sockets(old(callbacks.entries)) && old(s.Writable()) ==>
              s.sent == old(s.sent) + Repeat(Notice, Count(old(callbacks.entries), s))
  {
    var snapshot := callbacks.GetAll();
    ghost var live := LiveSockets(snapshot);
    ghost var start := map s: Socket | s in Sockets(snapshot) :: s.sent;
    forall s | s in Sockets(snapshot)
      ensures s in start && start[s] == s.sent && (s in live <==> s.Writable())
    {
    }
    NotifyAll(callbacks, snapshot, live, start);
    forall s | s in Sockets(snapshot)
      ensures !old(s.Writable()) ==> s.sent == old(s.sent)
      ensures old(s.Writable()) ==> s.sent == old(s.sent) + Repeat(Notice, Count(snapshot, s))
    {
      assert s in live <==> old(s.Writable());
    }
  }

  /** A listener registered once, whose socket accepts data, receives the event exactly once. */
  lemma {:induction false} CountSingle(entries: seq<Entry>, i: nat)
    requires i < |entries|
    requires forall j :: 0 <= j < |entries| && j != i ==> entries[j].callback.client.sock != entries[i].callback.client.sock
    ensures Count(entries, entries[i].callback.client.sock) == 1
  {
    var s := entries[i].callback.client.sock;
    var init := entries[..|entries| - 1];
    if i == |entries| - 1 {
      CountAbsent(init, s);
    } else {
      CountSingle(init, i);
    }
  }

  lemma {:induction false} CountAbsent(entries: seq<Entry>, s: Socket)
    requires forall j :: 0 <= j < |entries| ==> entries[j].callback.client.sock != s
    ensures Count(entries, s) == 0
  {
    if |entries| > 0 {
      CountAbsent(entries[..|entries| - 1], s);
    }
  }

  // ---------------------------------------------------------------------------
  // WebServer.inject_event_code
  // ---------------------------------------------------------------------------

  const CloseBody := "</body>"

  const ScriptHead := "<script>\r\nconst evtSource = new EventSource(\""

  const ScriptTail :=
    "\")\n           evtSource.onmessage = (event) => {\n             location.reload();\n           };\n\n"
    + "           evtSource.onerror = () => {\n             location.reload();\n           }\n"
    + "           </script>\n           "

  /** The reloading script: an EventSource on the refresh path that reloads the page on any event or error. */
  function EventScript(refreshPath: string): string
  {
    ScriptHead + refreshPath + ScriptTail
  }

  /** A `</body>`, in any mix of upper and lower case, starts at position i. */
  predicate TagAt(html: string, i: nat)
  {
    i + |CloseBody| <= |html| && Lower(html[i..i + |CloseBody|]) == CloseBody
  }

  /** The number of positions where such a tag starts. */
  function TagCount(html: string): nat
  {
    if |html| < |CloseBody| then 0
    else (if TagAt(html, 0) then 1 else 0) + TagCount(html[1..])
  }

  /** `re.sub` with IGNORECASE: scan left to right, putting `script` and a lower-case tag in place of each tag. */
  function ReplaceTags(html: string, script: string): string
    decreases |html|
  {
    if |html| < |CloseBody| then html
    else if TagAt(html, 0) then script + CloseBody + ReplaceTags(html[|CloseBody|..], script)
    else [html[0]] + ReplaceTags(html[1..], script)
  }

  /** `inject_event_code`: the page unchanged unless a case-insensitive search finds a tag. */
  function InjectEventCode(refreshPath: string, html: string): string
  {
    if Contains(Lower(html), CloseBody) then ReplaceTags(html, EventScript(refreshPath)) else html
  }

  lemma TagAtShift(html: string, j: nat)
    requires |html| > 0 && j >= 1
    ensures TagAt(html, j) <==> TagAt(html[1..], j - 1)
  {
    if j + |CloseBody| <= |html| {
      assert html[1..][j - 1..j - 1 + |CloseBody|] == html[j..j + |CloseBody|];
    }
  }

  /** Skipping k positions where no tag starts leaves the count unchanged. */
  lemma {:induction false} TagCountSkip(html: string, k: nat)
    requires k <= |html|
    requires forall j :: 0 <= j < k ==> !TagAt(html, j)
    ensures TagCount(html) == TagCount(html[k..])
  {
    if k > 0 {
      if |html| < |CloseBody| {
        TagCountShort(html[k..]);
      } else {
        forall j | 0 <= j < k - 1 ensures !TagAt(html[1..], j) {
          TagAtShift(html, j + 1);
        }
        TagCountSkip(html[1..], k - 1);
        assert html[1..][k - 1..] == html[k..];
      }
    }
  }

  lemma TagCountShort(html: string)
    requires |html| < |CloseBody|
    ensures TagCount(html) == 0
  {
  }

  /** Tags cannot overlap: none starts in the six positions after a tag. */
  lemma TagNoOverlap(html: string, j: nat)
    requires TagAt(html, 0) && 1 <= j < |CloseBody|
    ensures !TagAt(html, j)
  {
    if j + |CloseBody| <= |html| {
      assert LowerChar(html[j]) == Lower(html[..|CloseBody|])[j] == CloseBody[j];
      assert Lower(html[j..j + |CloseBody|])[0] == LowerChar(html[j]);
    }
  }

  /** After a tag, counting resumes behind it. */
  lemma TagCountAfterTag(html: string)
    requires TagAt(html, 0)
    ensures TagCount(html) == 1 + TagCount(html[|CloseBody|..])
  {
    forall j | 0 <= j < |CloseBody| - 1 ensures !TagAt(html[1..], j) {
      TagNoOverlap(html, j + 1);
      TagAtShift(html, j + 1);
    }
    TagCountSkip(html[1..], |CloseBody| - 1);
    assert html[1..][|CloseBody| - 1..] == html[|CloseBody|..];
  }

  /** The length grows by one script per tag. */
  lemma {:induction false} ReplaceTagsLength(html: string, script: string)
    ensures |ReplaceTags(html, script)| == |html| + TagCount(html) * |script|
    decreases |html|
  {
    if |html| >= |CloseBody| {
      if TagAt(html, 0) {
        var rest := html[|CloseBody|..];
        TagCountAfterTag(html);
        ReplaceTagsLength(rest, script);
        var n := TagCount(rest);
        assert ReplaceTags(html, script) == script + CloseBody + ReplaceTags(rest, script);
        assert |html| == |CloseBody| + |rest|;
        assert (1 + n) * |script| == |script| + n * |script|;
      } else {
        ReplaceTagsLength(html[1..], script);
        assert ReplaceTags(html, script) == [html[0]] + ReplaceTags(html[1..], script);
        assert TagCount(html) == TagCount(html[1..]);
      }
    } else {
      assert TagCount(html) * |script| == 0;
    }
  }

  /** A page without a tag is left as it is. */
  lemma {:induction false} ReplaceTagsNone(html: string, script: string)
    requires forall j: nat :: !TagAt(html, j)
    ensures ReplaceTags(html, script) == html
    decreases |html|
  {
    if |html| >= |CloseBody| {
      assert !TagAt(html, 0);
      forall j: nat ensures !TagAt(html[1..], j) {
        TagAtShift(html, j + 1);
      }
      ReplaceTagsNone(html[1..], script);
      assert [html[0]] + html[1..] == html;
    }
  }

  /**
   * The first tag, whatever its case, gives way to the script and a
   * lower-case tag; the text before it is kept and the scan goes on after it.
   */
  lemma ReplaceTagsFirst(html: string, script: string, i: nat)
    requires TagAt(html, i) && forall j: nat :: j < i ==> !TagAt(html, j)
    ensures ReplaceTags(html, script) ==
              html[..i] + script + CloseBody + ReplaceTags(html[i + |CloseBody|..], script)
  {
    ReplaceTagsPrefix(html, script, i);
    var suffix := html[i..];
    assert suffix[..|CloseBody|] == html[i..i + |CloseBody|];
    assert suffix[|CloseBody|..] == html[i + |CloseBody|..];
    ReplaceTagsAtTag(suffix, script);
    Regroup(html[..i], script, CloseBody, ReplaceTags(suffix[|CloseBody|..], script));
  }

  /** The text before the first tag is kept as it is. */
  lemma {:induction false} ReplaceTagsPrefix(html: string, script: string, k: nat)
    requires k <= |html| && forall j: nat :: j < k ==> !TagAt(html, j)
    ensures ReplaceTags(html, script) == html[..k] + ReplaceTags(html[k..], script)
    decreases k
  {
    if k == 0 {
      assert html[..0] + ReplaceTags(html, script) == ReplaceTags(html, script);
    } else if |html| < |CloseBody| {
      assert html[..k] + html[k..] == html;
    } else {
      forall j: nat | j < k - 1 ensures !TagAt(html[1..], j) {
        TagAtShift(html, j + 1);
      }
      ReplaceTagsPrefix(html[1..], script, k - 1);
      assert html[1..][k - 1..] == html[k..];
      assert !TagAt(html, 0);
      ReplaceTagsSkip(html, script);
      KeepFirst(html, k, ReplaceTags(html, script), ReplaceTags(html[1..], script), ReplaceTags(html[k..], script));
    }
  }

  /** Where no tag starts, the first character is kept and the scan moves on by one. */
  lemma ReplaceTagsSkip(html: string, script: string)
    requires |html| >= |CloseBody| && !TagAt(html, 0)
    ensures ReplaceTags(html, script) == [html[0]] + ReplaceTags(html[1..], script)
  {
  }

  /** Where a tag starts, it gives way to the script and a lower-case tag. */
  lemma ReplaceTagsAtTag(html: string, script: string)
    requires TagAt(html, 0)
    ensures ReplaceTags(html, script) == script + CloseBody + ReplaceTags(html[|CloseBody|..], script)
  {
  }

  lemma KeepFirst(html: string, k: nat, whole: string, tail: string, rest: string)
    requires 0 < k <= |html|
    requires whole == [html[0]] + tail && tail == html[1..][..k - 1] + rest
    ensures whole == html[..k] + rest
  {
    assert [html[0]] + html[1..][..k - 1] == html[..k];
  }

  /**
   * `re.sub` as the search sees it: with no `</body>` in the lower-cased page
   * nothing changes; otherwise the text before the first one is kept, the tag
   * is replaced by the script and a lower-case tag, and the rest of the page
   * is treated the same way.
   */
  lemma ReplaceTagsLeftmost(html: string, script: string)
    ensures Find(Lower(html), CloseBody).None? ==> ReplaceTags(html, script) == html
    ensures Find(Lower(html), CloseBody).Some? ==>
              var i := Find(Lower(html), CloseBody).value;
              ReplaceTags(html, script) == html[..i] + script + CloseBody + ReplaceTags(html[i + |CloseBody|..], script)
  {
    FindSpec(Lower(html), CloseBody);
    match Find(Lower(html), CloseBody)
    case None =>
      forall j: nat ensures !TagAt(html, j) {
        LowerOccurs(html, j);
      }
      ReplaceTagsNone(html, script);
    case Some(i) =>
      LowerOccurs(html, i);
      forall j: nat | j < i ensures !TagAt(html, j) {
        LowerOccurs(html, j);
      }
      ReplaceTagsFirst(html, script, i);
  }

  /** The lower-cased page has `</body>` at i exactly where a tag starts in the page. */
  lemma LowerOccurs(html: string, i: nat)
    ensures OccursAt(Lower(html), CloseBody, i) <==> TagAt(html, i)
  {
    if i + |CloseBody| <= |html| {
      assert Lower(html)[i..i + |CloseBody|] == Lower(html[i..i + |CloseBody|]);
    }
  }

  /** Some tag is counted exactly when some tag starts somewhere. */
  lemma {:induction false} TagCountPositive(html: string)
    ensures TagCount(html) > 0 <==> exists i: nat :: TagAt(html, i)
    decreases |html|
  {
    if |html| >= |CloseBody| {
      TagCountPositive(html[1..]);
      if TagCount(html) == 0 {
        forall i: nat ensures !TagAt(html, i) {
          if i > 0 {
            TagAtShift(html, i);
          }
        }
      } else if !TagAt(html, 0) {
        var j: nat :| TagAt(html[1..], j);
        TagAtShift(html, j + 1);
      }
    } else {
      assert forall i: nat :: !TagAt(html, i);
    }
  }

  /** The case-insensitive search finds a tag exactly when there is one. */
  lemma SearchFindsTags(html: string)
    ensures Contains(Lower(html), CloseBody) <==> TagCount(html) > 0
  {
    var low := Lower(html);
    FindSpec(low, CloseBody);
    TagCountPositive(html);
    if Contains(low, CloseBody) {
      LowerOccurs(html, Find(low, CloseBody).value);
    } else if TagCount(html) > 0 {
      var i: nat :| TagAt(html, i);
      LowerOccurs(html, i);
    }
  }

  /**
   * inject_event_code adds one copy of the script per tag, and leaves the
   * page unchanged exactly when it has no tag.
   */
  lemma InjectEventCodeLength(refreshPath: string, html: string)
    ensures |InjectEventCode(refreshPath, html)| == |html| + TagCount(html) * |EventScript(refreshPath)|
    ensures InjectEventCode(refreshPath, html) == html <==> TagCount(html) == 0
  {
    var script := EventScript(refreshPath);
    SearchFindsTags(html);
    ReplaceTagsLength(html, script);
    assert |script| >= |ScriptHead| > 0;
    NoGrowthNoCopies(|html|, TagCount(html), |script|);
  }

  lemma NoGrowthNoCopies(length: nat, copies: nat, size: nat)
    requires size > 0
    ensures length + copies * size == length <==> copies == 0
  {
  }

  // ---------------------------------------------------------------------------
  // The HTML branch of send_data_django_server_to_client
  // ---------------------------------------------------------------------------

  /** `content_type and 'text/html' in content_type`. */
  predicate IsHtml(h: Headers)
  {
    var contentType := HeaderValue(h, "Content-Type");
    contentType.Some? && contentType.value != "" && Contains(contentType.value, "text/html")
  }

  /** `int(header_value(headers, 'Content-Length'))`; None for the TypeError or ValueError. */
  function ContentLength(h: Headers): Option<int>
  {
    match HeaderValue(h, "Content-Length")
    case None => None
    case Some(v) => ParseInt(v)
  }

  /**
   * What is written for an HTML response with status line `info`, fields `h`
   * and body `body`: the head with Content-Length set to the length of the
   * page, then the page with the script injected. Nothing when
   * modify_headers raises or the status line is missing, both of which
   * happen before the first write.
   */
  function HtmlReply(refreshPath: string, info: Option<StartLine>, h: Headers, body: Bytes): Bytes
  {
    var page := InjectEventCode(refreshPath, body);
    match Modified(h, "Content-Length", NatToString(|page|))
    case Err(_) => ""
    case Ok(fields) => if info.Some? then HeaderBlock(info.value, fields) + page else ""
  }

  /**
   * The bytes the proxy sends to the client for a response whose header
   * block text is `head` and whose body, as read, is `body`. An HTML response
   * is rewritten; any other response has its head written back unchanged
   * (the relay of its body is not part of this model).
   */
  function Reply(refreshPath: string, head: Bytes, body: Bytes): Bytes
  {
    var lines := Split(head, CRLF);
    var info := ExtractStartLine(lines[0]);
    var h := ParseFields(lines);
    if IsHtml(h) then
      if ContentLength(h).None? then "" else HtmlReply(refreshPath, info, h, body)
    else if info.Some? then HeaderBlock(info.value, h)
    else ""
  }

  /**
   * The body read for a response head: for an HTML response with a length,
   * at least that many bytes (none for a length of zero or less); otherwise
   * nothing.
   */
  ghost predicate BodyRead(head: Bytes, body: Bytes)
  {
    var h := ParseFields(Split(head, CRLF));
    if IsHtml(h) && ContentLength(h).Some? then
      |body| >= ContentLength(h).value && (ContentLength(h).value <= 0 ==> body == "")
    else body == ""
  }

  /** A header block is never empty: it ends in CR LF CR LF. */
  lemma HeaderBlockNonEmpty(info: StartLine, h: Headers)
    ensures |HeaderBlock(info, h)| >= |HttpStream.HeaderEnd|
  {
    HeaderBlockText(info, h);
  }

  /**
   * The proxy writes nothing to the client exactly when the status line is
   * missing, or the response is HTML and its Content-Length is missing or not
   * a number, or modify_headers raises.
   */
  lemma ReplyEmpty(refreshPath: string, head: Bytes, body: Bytes)
    ensures var lines := Split(head, CRLF);
            var info := ExtractStartLine(lines[0]);
            var h := ParseFields(lines);
            Reply(refreshPath, head, body) == "" <==>
              || info.None?
              || (IsHtml(h) && ContentLength(h).None?)
              || (IsHtml(h) && Modified(h, "Content-Length", NatToString(|InjectEventCode(refreshPath, body)|)).Err?)
  {
    var lines := Split(head, CRLF);
    var info := ExtractStartLine(lines[0]);
    var h := ParseFields(lines);
    if info.Some? {
      HeaderBlockNonEmpty(info.value, h);
      var page := InjectEventCode(refreshPath, body);
      var m := Modified(h, "Content-Length", NatToString(|page|));
      if m.Ok? {
        HeaderBlockNonEmpty(info.value, m.value);
      }
    }
  }

  /** The decimal text of a length is a valid field value. */
  lemma LengthFieldWritable(n: nat)
    ensures Writable(Field("Content-Length", [NatToString(n)]))
  {
    var v := NatToString(n);
    DigitsStripped(v);
    assert NoBreak(v);
    LengthNameWritable();
    SingleFieldWritable("Content-Length", v);
  }

  /** The name Content-Length can be written as a header field name. */
  lemma LengthNameWritable()
    ensures ':' !in "Content-Length" && NoBreak("Content-Length") && IsStripped("Content-Length")
  {
  }

  lemma SingleFieldWritable(name: string, v: string)
    requires ':' !in name && NoBreak(name) && IsStripped(name) && NoBreak(v) && IsStripped(v)
    ensures Writable(Field(name, [v]))
  {
  }

  /** The reply to a serialisable HTML head with a length is the rewritten response. */
  lemma ReplyOfBlock(refreshPath: string, info: StartLine, h: Headers, body: Bytes)
    requires Serialisable(info, h) && IsHtml(h) && ContentLength(h).Some?
    ensures Reply(refreshPath, BlockText(info, h), body) == HtmlReply(refreshPath, Some(info), h, body)
  {
    HeaderRoundTrip(info, h, "");
  }

  /** With only one spelling of Content-Length, modify_headers cannot raise. */
  lemma ModifiedOnlySpelling(h: Headers, name: string, value: string)
    requires OnlySpelling(h, name)
    ensures Modified(h, name, value).Ok?
  {
    if FirstMatch(h, name).Some? {
      var i := FirstMatch(h, name).value;
      assert Names(h)[i] == name;
    }
  }

  /**
   * A rewritten HTML response as the client reads it: the head is split off
   * right before the page, parses back to the same status line and to the
   * Django server's fields with only Content-Length changed, and that
   * Content-Length is the length of the page that follows.
   */
  lemma HtmlReplyFraming(refreshPath: string, info: StartLine, h: Headers, body: Bytes)
    requires Serialisable(info, h) && OnlySpelling(h, "Content-Length")
    ensures var page := InjectEventCode(refreshPath, body);
            var m := Modified(h, "Content-Length", NatToString(|page|));
            && m.Ok?
            && var fields := m.value;
               && HtmlReply(refreshPath, Some(info), h, body) == HeaderBlock(info, fields) + page
               && HttpStream.HeaderSplit(HeaderBlock(info, fields) + page, BlockText(info, fields), page)
               && ExtractStartLine(Split(BlockText(info, fields), CRLF)[0]) == Some(info)
               && ParseFields(Split(BlockText(info, fields), CRLF)) == fields
               && ContentLength(fields) == Some(|page|)
               && forall key :: key != "Content-Length" ==> ValuesOf(fields, key) == ValuesOf(h, key)
  {
    var page := InjectEventCode(refreshPath, body);
    var length := NatToString(|page|);
    ModifiedOnlySpelling(h, "Content-Length", length);
    var fields := Modified(h, "Content-Length", length).value;
    ModifiedSets(h, "Content-Length", length);
    LengthFieldWritable(|page|);
    ModifiedSerialisable(info, h, "Content-Length", length);
    HeaderRoundTrip(info, fields, page);
    HeaderValueAfterModify(h, "Content-Length", length);
    ParseIntNatToString(|page|);
  }

  /**
   * The framing of the proxy's reply to an HTML response whose head it
   * parsed: what the client receives is the rewritten head followed by the
   * page, the client's own parse of that head finds the same status line,
   * the Django server's fields with only Content-Length changed, and a
   * Content-Length equal to the length of the page.
   */
  lemma ReplyFraming(refreshPath: string, info: StartLine, h: Headers, body: Bytes)
    requires Serialisable(info, h) && OnlySpelling(h, "Content-Length")
    requires IsHtml(h) && ContentLength(h).Some?
    ensures var page := InjectEventCode(refreshPath, body);
            var m := Modified(h, "Content-Length", NatToString(|page|));
            && m.Ok?
            && var fields := m.value;
               && Reply(refreshPath, BlockText(info, h), body) == HeaderBlock(info, fields) + page
               && HttpStream.HeaderSplit(HeaderBlock(info, fields) + page, BlockText(info, fields), page)
               && ExtractStartLine(Split(BlockText(info, fields), CRLF)[0]) == Some(info)
               && ParseFields(Split(BlockText(info, fields), CRLF)) == fields
               && ContentLength(fields) == Some(|page|)
               && forall key :: key != "Content-Length" ==> ValuesOf(fields, key) == ValuesOf(h, key)
  {
    ReplyOfBlock(refreshPath, info, h, body);
    HtmlReplyFraming(refreshPath, info, h, body);
  }

  // ---------------------------------------------------------------------------
  // WebServer
  // ---------------------------------------------------------------------------

  /**
   * The head of the event-stream response: a 200 status line, a Content-Type
   * of text/event-stream, no caching, a connection kept open, a blank line.
   */
  const EventStreamHead: Bytes :=
    "HTTP/1.0 200 OK\r\n" + "Content-Type: text/event-stream\r\n" + "Cache-Control: no-cache\r\n"
    + "Connection: keep-alive\r\n" + "\r\n"

  /** The proxy: its refresh path, its registry of listeners. */
  class WebServer {
    const configuration: Configuration
    /** `/<uuid>/`: the path prefix of the event stream. */
    const refreshPath: string
    const callbacks: ChangeCallbacks

    ghost predicate Valid()
      reads this, callbacks
    {
      callbacks.Valid()
    }

    /** The refresh path is drawn from a uuid, passed in as its text. */
    constructor (configuration: Configuration, id: string)
      ensures this.configuration == configuration && refreshPath == "/" + id + "/"
      ensures fresh(callbacks) && callbacks.entries == [] && Valid()
    {
      this.configuration := configuration;
      refreshPath := "/" + id + "/";
      callbacks := new ChangeCallbacks(configuration);
    }

    /**
     * `serve_refresh_event_page`: write the event-stream head and, once it is
     * written, register a callback under the new stream id. A failed write
     * raises before anything is registered.
     */
    method ServeRefreshEventPage(client: Stream, streamId: StreamId)
      requires Valid()
      modifies callbacks, client.sock
      ensures Valid()
      ensures client.sock.sent == old(client.sock.sent) + (if old(client.sock.Writable()) then EventStreamHead else "")
      ensures client.sock.unread == old(client.sock.unread) && client.sock.closed == old(client.sock.closed)
      ensures callbacks.entries ==
                if old(client.sock.Writable()) then SetDefault(old(callbacks.entries), streamId, FileChange(client, streamId))
                else old(callbacks.entries)
    {
      var ok := client.WriteChunk(EventStreamHead);
      if !ok {
        return;
      }
      callbacks.SetCallback(streamId, FileChange(client, streamId));
    }

    /**
     * The routing of `serve_page`: a path under the refresh path gets the
     * event stream and nothing is forwarded; any other request is forwarded
     * to the Django server with its method, path and fields, as HTTP/1.0.
     * The connection to the Django server is passed in.
     */
    method ServePage(client: Stream, info: StartLine, h: Headers, proxy: Stream, streamId: StreamId)
      requires Valid() && client.sock != proxy.sock
      modifies callbacks, client.sock, proxy.sock
      ensures Valid()
      ensures StartsWith(info.path, refreshPath) ==>
                && client.sock.sent == old(client.sock.sent) + (if old(client.sock.Writable()) then EventStreamHead else "")
                && callbacks.entries ==
                     (if old(client.sock.Writable()) then SetDefault(old(callbacks.entries), streamId, FileChange(client, streamId))
                      else old(callbacks.entries))
                && proxy.sock.sent == old(proxy.sock.sent)
      ensures !StartsWith(info.path, refreshPath) ==>
                && proxy.sock.sent == old(proxy.sock.sent) +
                     (if old(proxy.sock.Writable()) then HeaderBlock(StartLine(info.requestMethod, info.path, "HTTP/1.0"), h) else "")
                && client.sock.sent == old(client.sock.sent)
                && callbacks.entries == old(callbacks.entries)
      ensures client.sock.unread == old(client.sock.unread) && client.sock.closed == old(client.sock.closed)
      ensures proxy.sock.unread == old(proxy.sock.unread) && proxy.sock.closed == old(proxy.sock.closed)
    {
      if StartsWith(info.path, refreshPath) {
        ServeRefreshEventPage(client, streamId);
        return;
      }
      var forwarded := BuildHeaderBytes(StartLine(info.requestMethod, info.path, "HTTP/1.0"), h);
      var _ := proxy.WriteChunk(forwarded);
    }

    /**
     * `send_data_django_server_to_client` up to the relay of a non-HTML body:
     * read the response head from the Django server; for an HTML response
     * read the body, inject the script, set Content-Length, and write head
     * then page to the client; for any other response write the head back.
     * `read` is what was taken from the Django server: the head's text and
     * the body; None when a read failed, in which case nothing is written.
     */
    method SendDjangoServerToClient(target: Stream, client: Stream) returns (ghost read: Option<(Bytes, Bytes)>)
      requires target.sock != client.sock
      modifies target, target.sock, client.sock
      ensures target.sock.sent == old(target.sock.sent) && target.sock.closed == old(target.sock.closed)
      ensures client.sock.unread == old(client.sock.unread) && client.sock.closed == old(client.sock.closed)
      ensures read.None? ==> client.sock.sent == old(client.sock.sent)
      ensures read.None? && !target.sock.closed && target.bufferSize > 0 ==> target.Pending() == ""
      ensures read.Some? ==>
                && HeaderSplit(old(target.Pending()), read.value.0, read.value.1 + target.Pending())
                && BodyRead(read.value.0, read.value.1)
                && client.sock.sent == old(client.sock.sent) +
                     (if old(client.sock.Writable()) then Reply(refreshPath, read.value.0, read.value.1) else "")
    {
      var raw := ReadHeaders(target);
      if raw.Err? {
        return None;
      }
      var head := raw.value;
      ghost var rest := target.Pending();
      var info, h := ParseHeaders(head);
      if IsHtml(h) {
        var body := SendHtml(target, client, head, info, h);
        if body.None? {
          return None;
        }
        return Some((head, body.value));
      }
      if info.Some? {
        var block := BuildHeaderBytes(info.value, h);
        var _ := client.WriteChunk(block);
      }
      assert "" + target.Pending() == target.Pending();
      return Some((head, ""));
    }

    /**
     * The HTML branch: the body is read, rewritten and written after the
     * rewritten head; nothing is written when Content-Length is unusable,
     * the body cannot be read, or the head cannot be rebuilt.
     */
    method SendHtml(target: Stream, client: Stream, head: Bytes, info: Option<StartLine>, h: Headers)
      returns (body: Option<Bytes>)
      requires target.sock != client.sock
      requires h == ParseFields(Split(head, CRLF)) && info == ExtractStartLine(Split(head, CRLF)[0]) && IsHtml(h)
      modifies target, target.sock, client.sock
      ensures target.sock.sent == old(target.sock.sent) && target.sock.closed == old(target.sock.closed)
      ensures client.sock.unread == old(client.sock.unread) && client.sock.closed == old(client.sock.closed)
      ensures body.None? ==> client.sock.sent == old(client.sock.sent)
      ensures body.None? && !target.sock.closed && target.bufferSize > 0 ==> target.Pending() == ""
      ensures body.Some? ==>
                && old(target.Pending()) == body.value + target.Pending()
                && BodyRead(head, body.value)
                && client.sock.sent == old(client.sock.sent) +
                     (if old(client.sock.Writable()) then Reply(refreshPath, head, body.value) else "")
    {
      var contentLength := ContentLength(h);
      if contentLength.None? {
        assert "" + target.Pending() == target.Pending();
        return Some("");
      }
      var read := ReadTextBody(target, contentLength.value);
      if read.Err? {
        return None;
      }
      RespondHtml(client, info, h, read.value);
      return Some(read.value);
    }

    /** Rewrite an HTML response that has been read whole, and write it to the client. */
    method RespondHtml(client: Stream, info: Option<StartLine>, h: Headers, body: Bytes)
      modifies client.sock
      ensures client.sock.sent == old(client.sock.sent) +
                (if old(client.sock.Writable()) then HtmlReply(refreshPath, info, h, body) else "")
      ensures client.sock.unread == old(client.sock.unread) && client.sock.closed == old(client.sock.closed)
    {
      var page := InjectEventCode(refreshPath, body);
      var fields := ModifyHeaders(h, "Content-Length", NatToString(|page|));
      if fields.Err? || info.None? {
        return;
      }
      var block := BuildHeaderBytes(info.value, fields.value);
      WriteResponse(client, block, page);
    }
  }

  /** Head then page: both reach a client that accepts data, neither one that does not. */
  method WriteResponse(client: Stream, block: Bytes, page: Bytes)
    modifies client.sock
    ensures client.sock.sent == old(client.sock.sent) + (if old(client.sock.Writable()) then block + page else "")
    ensures client.sock.unread == old(client.sock.unread) && client.sock.closed == old(client.sock.closed)
  {
    var ok := client.WriteChunk(block);
    if ok {
      ok := client.WriteChunk(page);
    }
  }
}
