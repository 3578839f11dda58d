/**
 The offline store the extension falls back on when its server is unreachable:
 the saved links, the usage history and the local user with a points balance.
 `chrome.storage.local` becomes an explicit `Store` value threaded through every
 operation; the clock and the random id generator become parameters.
 */
module LocalStore {
  import opened Base
  import opened Js

  /** A stored object (a saved link, a history entry or the user) */
  type Record = map<string, Val>

  /** The three storage keys the store manages; `None` is a key that is absent
      (an array or an object is always truthy, so "falsy" means "absent" here) */
  datatype Store = Store(links: Option<seq<Record>>, history: Option<seq<Record>>, user: Option<Record>)

  /** How many entries the history keeps */
  const MaxHistory := 50

  /** The default of `getHistory`'s `limit` */
  const DefaultHistoryLimit := 20

  /** `record.url` */
  function Url(r: Record): Val {
    Get(Obj(r), "url")
  }

  /** `getLinks()`: the stored array, or `[]` */
  function GetLinks(s: Store): seq<Record> {
    s.links.GetOr([])
  }

  /** `data[HISTORY] || []` */
  function GetHistoryAll(s: Store): seq<Record> {
    s.history.GetOr([])
  }

  // ---------------------------------------------------------------------------
  // Initialisation
  // ---------------------------------------------------------------------------

  /** The user `initLocalStorage` creates */
  const DefaultUser: Record := map["username" := Str("本地用户"), "points" := Num(100), "isLocal" := Bool(true)]

  /** `initLocalStorage()`: each of the three keys that is missing gets its default */
  function InitLocalStorage(s: Store): (r: Store)
    ensures r.links.Some? && r.history.Some? && r.user.Some?
    ensures s.links.Some? ==> r.links == s.links
    ensures s.history.Some? ==> r.history == s.history
    ensures s.user.Some? ==> r.user == s.user
    ensures s.links.None? ==> r.links == Some([])
    ensures s.history.None? ==> r.history == Some([])
    ensures s.user.None? ==> r.user == Some(DefaultUser) && PointsOf(r.user.value) == 100
  {
    Store(Some(s.links.GetOr([])), Some(s.history.GetOr([])), Some(s.user.GetOr(DefaultUser)))
  }

  /** Initialising an initialised store changes nothing */
  lemma InitIdempotent(s: Store)
    ensures InitLocalStorage(InitLocalStorage(s)) == InitLocalStorage(s)
  {
  }

  // ---------------------------------------------------------------------------
  // Links
  // ---------------------------------------------------------------------------

  /** `links.findIndex(link => link.url === url)` from position `from` on */
  function FindIndexFrom(links: seq<Record>, url: Val, from: nat): (r: Option<nat>)
    requires from <= |links|
    decreases |links| - from
    ensures r.Some? ==> from <= r.value < |links| && Url(links[r.value]) == url
    ensures r.Some? ==> forall j :: from <= j < r.value ==> Url(links[j]) != url
    ensures r.None? ==> forall j :: from <= j < |links| ==> Url(links[j]) != url
  {
    if from == |links| then None
    else if Url(links[from]) == url then Some(from)
    else FindIndexFrom(links, url, from + 1)
  }

  /** `links.findIndex(link => link.url === url)`, with -1 read as None */
  function FindIndex(links: seq<Record>, url: Val): Option<nat> {
    FindIndexFrom(links, url, 0)
  }

  /** `findLinkByUrl(url)`: the first saved link whose url equals `url`, or null */
  function FindLinkByUrl(s: Store, url: Val): (r: Option<Record>)
    ensures r.None? <==> forall j :: 0 <= j < |GetLinks(s)| ==> Url(GetLinks(s)[j]) != url
    ensures r.Some? ==> exists i :: 0 <= i < |GetLinks(s)| && GetLinks(s)[i] == r.value
                                 && Url(GetLinks(s)[i]) == url
                                 && forall j :: 0 <= j < i ==> Url(GetLinks(s)[j]) != url
  {
    var links := GetLinks(s);
    match FindIndex(links, url)
    case None => None
    case Some(i) => Some(links[i])
  }

  /** No two saved links share a url */
  predicate UniqueUrls(links: seq<Record>) {
    forall i, j :: 0 <= i < j < |links| ==> Url(links[i]) != Url(links[j])
  }

  /** The fields `saveLink` stamps on a link it touches */
  predicate IsStamp(k: string) {
    k == "id" || k == "createdAt" || k == "updatedAt"
  }

  /** `{...old, ...linkData, updatedAt}` */
  function Updated(prev: Record, linkData: Record, now: string): Record {
    Spread(Spread(prev, linkData), map["updatedAt" := Str(now)])
  }

  /** `{...linkData, id, createdAt, updatedAt}` */
  function Created(linkData: Record, id: string, now: string): Record {
    Spread(linkData, map["id" := Str(id), "createdAt" := Str(now), "updatedAt" := Str(now)])
  }

  /** `saveLink(linkData)`: an existing link with the same url is overwritten field
      by field in place; otherwise the link is appended with a fresh id and
      timestamps, and the user earns 2 points */
  function SaveLink(s: Store, linkData: Record, id: string, now: string): (r: Store)
    ensures r.history == s.history
    ensures FindIndex(GetLinks(s), Url(linkData)).Some? ==>
      var i := FindIndex(GetLinks(s), Url(linkData)).value;
      && r.links.Some? && |r.links.value| == |GetLinks(s)|
      && (forall j :: 0 <= j < |GetLinks(s)| && j != i ==> r.links.value[j] == GetLinks(s)[j])
      && r.links.value[i] == Updated(GetLinks(s)[i], linkData, now)
      && r.user == s.user
    ensures FindIndex(GetLinks(s), Url(linkData)).None? ==>
      && r.links == Some(GetLinks(s) + [Created(linkData, id, now)])
      && r.user == AddPoints(s, 2).st.user
  {
    var links := GetLinks(s);
    match FindIndex(links, Url(linkData))
    case Some(i) =>
      s.(links := Some(links[i := Updated(links[i], linkData, now)]))
    case None =>
      AddPoints(s, 2).st.(links := Some(links + [Created(linkData, id, now)]))
  }

  /** An updated link carries every field of `linkData` but `updatedAt`, keeps its
      other old fields, and is stamped with the time */
  lemma UpdatedFields(prev: Record, linkData: Record, now: string)
    ensures var r := Updated(prev, linkData, now);
      && (forall k :: k in linkData && k != "updatedAt" ==> k in r && r[k] == linkData[k])
      && (forall k :: k in prev && k !in linkData && k != "updatedAt" ==> k in r && r[k] == prev[k])
      && r["updatedAt"] == Str(now)
      && (Url(prev) == Url(linkData) ==> Url(r) == Url(linkData))
  {
  }

  /** A created link carries every field of `linkData` but the three stamps */
  lemma CreatedFields(linkData: Record, id: string, now: string)
    ensures var r := Created(linkData, id, now);
      && (forall k :: k in linkData && !IsStamp(k) ==> k in r && r[k] == linkData[k])
      && r["id"] == Str(id) && r["createdAt"] == Str(now) && r["updatedAt"] == Str(now)
      && Url(r) == Url(linkData)
  {
  }

  /** Saving never creates a second link for the same url */
  lemma SaveLinkKeepsUnique(s: Store, linkData: Record, id: string, now: string)
    requires UniqueUrls(GetLinks(s))
    ensures UniqueUrls(GetLinks(SaveLink(s, linkData, id, now)))
  {
    var links := GetLinks(s);
    var r := SaveLink(s, linkData, id, now);
    var nl := GetLinks(r);
    match FindIndex(links, Url(linkData))
    case Some(i) =>
      UpdatedFields(links[i], linkData, now);
      assert forall j :: 0 <= j < |nl| ==> Url(nl[j]) == Url(links[j]);
    case None =>
      CreatedFields(linkData, id, now);
      assert nl == links + [Created(linkData, id, now)];
      forall i, j | 0 <= i < j < |nl|
        ensures Url(nl[i]) != Url(nl[j])
      {
        if j == |links| {
          assert Url(nl[j]) == Url(linkData);
        } else {
          assert nl[i] == links[i] && nl[j] == links[j];
        }
      }
  }

  /** After saving, looking the url up finds the saved link, carrying `linkData`'s fields */
  lemma SaveThenFind(s: Store, linkData: Record, id: string, now: string)
    ensures var found := FindLinkByUrl(SaveLink(s, linkData, id, now), Url(linkData));
      && found.Some?
      && forall k :: k in linkData && !IsStamp(k) ==> k in found.value && found.value[k] == linkData[k]
  {
    var links := GetLinks(s);
    var r := SaveLink(s, linkData, id, now);
    var nl := GetLinks(r);
    var url := Url(linkData);
    match FindIndex(links, url)
    case Some(i) =>
      UpdatedFields(links[i], linkData, now);
      assert Url(nl[i]) == url;
      FindIndexAt(nl, url, i);
    case None =>
      CreatedFields(linkData, id, now);
      assert nl == links + [Created(linkData, id, now)];
      FindIndexAt(nl, url, |links|);
  }

  /** `findIndex` stops at `i` when the url is there and nowhere before */
  lemma FindIndexAt(links: seq<Record>, url: Val, i: nat)
    requires i < |links| && Url(links[i]) == url
    requires forall j :: 0 <= j < i ==> Url(links[j]) != url
    ensures FindIndex(links, url) == Some(i)
  {
  }

  // ---------------------------------------------------------------------------
  // Points
  // ---------------------------------------------------------------------------

  /** `user.points || 0` read as a number */
  function PointsOf(user: Record): int {
    var v := Get(Obj(user), "points");
    if v.Num? then v.n else 0
  }

  /** The store after `addPoints` and what it returned */
  datatype PointsResult = PointsResult(st: Store, result: Val)

  /** `addPoints(delta)`: `false` without a user; otherwise the balance moves by
      `delta`, never below 0, and the new balance is returned */
  function AddPoints(s: Store, delta: int): (r: PointsResult)
    ensures r.st.links == s.links && r.st.history == s.history
    ensures s.user.None? ==> r.st == s && r.result == Bool(false)
    ensures s.user.Some? ==>
      var p := if PointsOf(s.user.value) + delta < 0 then 0 else PointsOf(s.user.value) + delta;
      && r.st.user.Some? && PointsOf(r.st.user.value) == p && r.result == Num(p)
      && p >= 0
      && (forall k :: k in s.user.value && k != "points" ==> k in r.st.user.value && r.st.user.value[k] == s.user.value[k])
      && r.st.user.value.Keys == s.user.value.Keys + {"points"}
  {
    match s.user
    case None => PointsResult(s, Bool(false))
    case Some(u) =>
      var sum := PointsOf(u) + delta;
      var p := if sum < 0 then 0 else sum;
      PointsResult(s.(user := Some(u["points" := Num(p)])), Num(p))
  }

  /** `getPoints()`: the user's `points` field, or 0 without a user */
  function GetPoints(s: Store): (r: Val)
    ensures s.user.None? ==> r == Num(0)
    ensures s.user.Some? && r.Num? ==> r.n == PointsOf(s.user.value)
  {
    match s.user
    case None => Num(0)
    case Some(u) => Get(Obj(u), "points")
  }

  /** What `addPoints` returns is what `getPoints` reads back afterwards, and no
      sequence of point changes drives the balance below 0 */
  lemma AddThenGetPoints(s: Store, delta: int)
    requires s.user.Some?
    ensures var r := AddPoints(s, delta);
      GetPoints(r.st) == r.result && r.result.Num? && r.result.n >= 0
  {
  }

  // ---------------------------------------------------------------------------
  // History
  // ---------------------------------------------------------------------------

  /** The history entry for using `link` at time `now` */
  function HistoryEntry(link: Record, now: string): Record {
    var l := Obj(link);
    map["url" := Get(l, "url"), "platform" := Or(Get(l, "platform"), Get(l, "type")),
        "password" := Get(l, "password"), "used_at" := Str(now)]
  }

  /** `history.unshift(entry)` followed by one `pop()` when the result is over the bound */
  function PushBounded(h: seq<Record>, entry: Record): (r: seq<Record>)
    ensures |h| < MaxHistory ==> |r| == |h| + 1
    ensures |h| >= MaxHistory ==> |r| == |h|
    ensures r[0] == entry && r[1..] == h[..|r| - 1]
  {
    var h1 := [entry] + h;
    if |h1| > MaxHistory then h1[..|h1| - 1] else h1
  }

  /** The store after `useLink` and whether it returned true */
  datatype UseResult = UseResult(st: Store, ok: bool)

  /** `useLink(url)`: false and no change for an unknown url; otherwise a new entry
      goes to the head of the history, the history is cut back to the bound and one
      point is spent */
  function UseLink(s: Store, url: Val, now: string): (r: UseResult)
    ensures r.ok <==> exists j :: 0 <= j < |GetLinks(s)| && Url(GetLinks(s)[j]) == url
    ensures !r.ok ==> r.st == s
    ensures r.ok ==>
      var h := GetHistoryAll(r.st);
      && r.st.links == s.links
      && r.st.history.Some?
      && (|GetHistoryAll(s)| < MaxHistory ==> |h| == |GetHistoryAll(s)| + 1)
      && (|GetHistoryAll(s)| >= MaxHistory ==> |h| == |GetHistoryAll(s)|)
      && "url" in h[0] && h[0]["url"] == url && "used_at" in h[0] && h[0]["used_at"] == Str(now)
      && h[1..] == GetHistoryAll(s)[..|h| - 1]
      && r.st.user == AddPoints(s, -1).st.user
  {
    match FindLinkByUrl(s, url)
    case None => UseResult(s, false)
    case Some(link) =>
      var h := PushBounded(GetHistoryAll(s), HistoryEntry(link, now));
      UseResult(AddPoints(s.(history := Some(h)), -1).st, true)
  }

  /** The recorded platform is the link's `platform`, or its `type` when that is falsy */
  lemma UseLinkPlatform(s: Store, url: Val, now: string, link: Record)
    requires FindLinkByUrl(s, url) == Some(link)
    ensures var h := GetHistoryAll(UseLink(s, url, now).st);
      && (Truthy(Get(Obj(link), "platform")) ==> h[0]["platform"] == Get(Obj(link), "platform"))
      && (!Truthy(Get(Obj(link), "platform")) ==> h[0]["platform"] == Get(Obj(link), "type"))
  {
  }

  /** A history within the bound stays within it */
  lemma UseLinkBounded(s: Store, url: Val, now: string)
    requires |GetHistoryAll(s)| <= MaxHistory
    ensures |GetHistoryAll(UseLink(s, url, now).st)| <= MaxHistory
  {
  }

  /** `history.slice(0, limit)`, including a negative `limit` counted from the end */
  function GetHistory(s: Store, limit: int): (r: seq<Record>)
    ensures r <= GetHistoryAll(s)
    ensures 0 <= limit ==> |r| == if limit < |GetHistoryAll(s)| then limit else |GetHistoryAll(s)|
    ensures limit < 0 ==> |r| == if |GetHistoryAll(s)| + limit < 0 then 0 else |GetHistoryAll(s)| + limit
  {
    var h := GetHistoryAll(s);
    var end := if limit < 0 then (if |h| + limit < 0 then 0 else |h| + limit)
               else if limit < |h| then limit else |h|;
    h[..end]
  }

  /** Right after a successful `useLink`, the first history entry read back is the one it added */
  lemma UseThenHistory(s: Store, url: Val, now: string, limit: int)
    requires UseLink(s, url, now).ok && limit > 0
    ensures var h := GetHistory(UseLink(s, url, now).st, limit);
      |h| > 0 && h[0]["url"] == url && h[0]["used_at"] == Str(now)
  {
  }
}
