/**
 The content script's `foundLinks` map: one entry per normalized link, with the
 two progress flags every replacement routine and every submission updates.
 */
module Registry {
  import opened Base
  import opened Js

  /** An entry of `foundLinks`: the link as it appeared on the page (`url`), its
      `normalizedUrl`, the platform's `type` and `name`, the password chosen for it,
      and whether it has been given a button (`processed`) and reported (`submitted`) */
  datatype LinkInfo = LinkInfo(url: string, key: string, ty: string, name: string,
                               password: Option<string>, processed: bool, submitted: bool)

  /** `foundLinks`, keyed by normalized URL (and, after a submission, by raw URL too) */
  type Links = map<string, LinkInfo>

  /** `foundLinks.has(key) && foundLinks.get(key).processed` */
  predicate Processed(reg: Links, key: string) {
    key in reg && reg[key].processed
  }

  /** Every entry processed in `a` is present and processed in `b` */
  ghost predicate Keeps(a: Links, b: Links) {
    forall k :: Processed(a, k) ==> Processed(b, k)
  }

  lemma KeepsTrans(a: Links, b: Links, c: Links)
    requires Keeps(a, b) && Keeps(b, c)
    ensures Keeps(a, c)
  {
  }

  /** What a scanning pass works with: the loaded settings, the page text and the
      candidate passwords taken from it, and the background's answer to the submission
      of each link (true for `response.success`) */
  datatype Context = Context(settings: Val, pageText: string, candidates: seq<string>, accepts: LinkInfo -> bool)

  /** `settings.autoSubmit` */
  predicate AutoSubmit(ctx: Context) {
    Truthy(Get(ctx.settings, "autoSubmit"))
  }

  /** submitFoundLink for the object `info`, which is also the entry held under `held`:
      nothing happens once it is submitted or when the background does not accept it;
      otherwise the flag is set and the object is stored again under its raw URL */
  function Submit(reg: Links, held: string, info: LinkInfo, accepted: bool): (r: Links)
    ensures reg.Keys <= r.Keys
    ensures info.submitted || !accepted ==> r == reg
    ensures !info.submitted && accepted ==> info.url in r && r[info.url] == info.(submitted := true)
    ensures !info.submitted && accepted && held in reg && reg[held] == info ==> r[held] == info.(submitted := true)
    ensures r.Keys <= reg.Keys + {info.url}
    ensures forall k :: k in reg && k != info.url && k != held ==> r[k] == reg[k]
    ensures forall k :: k in r && r[k].submitted ==> (k in reg && reg[k].submitted) || accepted
    ensures info.processed ==> Keeps(reg, r)
  {
    if info.submitted || !accepted then reg
    else
      var done := info.(submitted := true);
      var mirrored := if held in reg && reg[held] == info then reg[held := done] else reg;
      mirrored[info.url := done]
  }

  /** A second submission of the same object, once accepted, changes nothing */
  lemma SubmitOnce(reg: Links, held: string, info: LinkInfo, first: bool, second: bool)
    requires first
    ensures var r := Submit(reg, held, info, first);
            var again := if info.submitted then info else info.(submitted := true);
            Submit(r, held, again, second) == r
  {
  }

  /** The tail shared by replaceTextNodeUrl, replaceWithAccessButton and
      checkAndProcessPattern once the button is in place: the entry, now processed, is
      stored under `key` and, with autoSubmit on, submitted */
  function Publish(reg: Links, key: string, info: LinkInfo, ctx: Context): (r: Links)
    ensures reg.Keys <= r.Keys
    ensures Processed(r, key) && Keeps(reg, r)
    ensures r.Keys <= reg.Keys + {key, info.url}
    ensures forall k :: k in reg && k != key && k != info.url ==> r[k] == reg[k]
    ensures !AutoSubmit(ctx) ==> r == reg[key := info.(processed := true)]
  {
    var done := info.(processed := true);
    var stored := reg[key := done];
    if AutoSubmit(ctx) then Submit(stored, key, done, ctx.accepts(done)) else stored
  }
}
