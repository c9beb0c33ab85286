/** The fact store of `src/factUtil.ts`: per guild, a record from subject to
    fact, kept under lower-cased subjects; the auto-reply cache derived from
    it; subject autocomplete; switching auto-reply on and off; and the
    create / edit / remove flow behind the edit form.
 */
module Facts {
  import opened Prelude
  import opened Dict

  /** A stored fact. `editedAt` is the ISO timestamp the clock supplied;
      `autoReply` stands for the optional `autoReply: true` flag. */
  datatype Fact = Fact(authorId: string, subject: string, body: string, editedAt: string, autoReply: bool)

  /** One guild's facts; a property may hold `undefined`. */
  type GuildFacts = Dict<Option<Fact>>

  /** `facts[subject]`, where a missing property and `undefined` read alike. */
  function Lookup(facts: GuildFacts, subject: string): (r: Option<Fact>)
    ensures r.Some? <==> Get(facts, subject).Some? && Get(facts, subject).value.Some?
    ensures r.Some? ==> Get(facts, subject) == Some(r)
  {
    var entry := Get(facts, subject);
    if entry.Some? then entry.value else None
  }

  /** `serializeSubject`: subjects are keyed in lower case. */
  function SerializeSubject(subject: string): (key: string)
    ensures |key| == |subject|
    ensures forall i :: 0 <= i < |subject| ==> key[i] == LowerChar(subject[i])
  {
    ToLower(subject)
  }

  /** Serialising an already serialised subject changes nothing, so a
      lower-cased key looks itself up. */
  lemma SerializeIdempotent(subject: string)
    ensures SerializeSubject(SerializeSubject(subject)) == SerializeSubject(subject)
  {
    ToLowerIdempotent(subject);
  }

  /** Every subject key is in serialised form. */
  ghost predicate Normalized(facts: GuildFacts)
  {
    forall k :: k in Keys(facts) ==> SerializeSubject(k) == k
  }

  // ---------------------------------------------------------------------------
  // The auto-reply cache
  // ---------------------------------------------------------------------------

  predicate AutoReplies(v: Option<Fact>)
  {
    v.Some? && v.value.autoReply
  }

  /** The body a message equal to `subject` is answered with, read straight
      from the record: present exactly for facts with auto-reply on. */
  function AutoReplyBody(facts: GuildFacts, subject: string): (r: Option<string>)
    ensures r.Some? <==> Lookup(facts, subject).Some? && Lookup(facts, subject).value.autoReply
    ensures r.Some? ==> r.value == Lookup(facts, subject).value.body
  {
    match Lookup(facts, subject)
    case Some(f) => if f.autoReply then Some(f.body) else None
    case None => None
  }

  /** `cache` is what walking the first `i` entries builds: every entry with
      auto-reply on is cached with its body, and every cached subject comes
      from such an entry. */
  ghost predicate CachedUpTo(facts: GuildFacts, cache: map<string, string>, i: int)
    requires 0 <= i <= |facts|
  {
    && (forall j :: 0 <= j < i && AutoReplies(facts[j].1) ==>
          facts[j].0 in cache && cache[facts[j].0] == facts[j].1.value.body)
    && (forall k :: k in cache ==>
          exists j :: 0 <= j < i && facts[j].0 == k && AutoReplies(facts[j].1) && cache[k] == facts[j].1.value.body)
  }

  /** One step of the walk keeps `CachedUpTo`: subjects are unique, so the
      new entry never overwrites an earlier one. */
  lemma CacheStep(facts: GuildFacts, cache: map<string, string>, i: int)
    requires Valid(facts) && 0 <= i < |facts| && CachedUpTo(facts, cache, i)
    ensures AutoReplies(facts[i].1) ==> CachedUpTo(facts, cache[facts[i].0 := facts[i].1.value.body], i + 1)
    ensures !AutoReplies(facts[i].1) ==> CachedUpTo(facts, cache, i + 1)
  {
    var (k, v) := facts[i];
    if AutoReplies(v) {
      var next := cache[k := v.value.body];
      forall j | 0 <= j < i + 1 && AutoReplies(facts[j].1)
        ensures facts[j].0 in next && next[facts[j].0] == facts[j].1.value.body
      {
        if j < i {
          ValidDistinct(facts, j, i);
          assert next[facts[j].0] == cache[facts[j].0];
        }
      }
      forall k' | k' in next
        ensures exists j :: 0 <= j < i + 1 && facts[j].0 == k' && AutoReplies(facts[j].1) && next[k'] == facts[j].1.value.body
      {
        var j := i;
        if k' != k {
          j := Witness(facts, cache, i, k');
        }
        assert 0 <= j < i + 1 && facts[j].0 == k' && AutoReplies(facts[j].1) && next[k'] == facts[j].1.value.body;
      }
    }
  }

  /** The entry a cached subject comes from. */
  lemma Witness(facts: GuildFacts, cache: map<string, string>, i: int, k: string) returns (j: int)
    requires 0 <= i <= |facts| && CachedUpTo(facts, cache, i) && k in cache
    ensures 0 <= j < i && facts[j].0 == k && AutoReplies(facts[j].1) && cache[k] == facts[j].1.value.body
  {
    j :| 0 <= j < i && facts[j].0 == k && AutoReplies(facts[j].1) && cache[k] == facts[j].1.value.body;
  }

  /** A cache built over all entries holds exactly the bodies `AutoReplyBody` reads. */
  lemma CacheMatchesRecord(facts: GuildFacts, cache: map<string, string>)
    requires Valid(facts) && CachedUpTo(facts, cache, |facts|)
    ensures forall k :: k in cache <==> AutoReplyBody(facts, k).Some?
    ensures forall k :: k in cache ==> AutoReplyBody(facts, k) == Some(cache[k])
  {
    forall k | k in cache
      ensures AutoReplyBody(facts, k) == Some(cache[k])
    {
      var j :| 0 <= j < |facts| && facts[j].0 == k && AutoReplies(facts[j].1) && cache[k] == facts[j].1.value.body;
      EntryReplyBody(facts, j);
    }
    forall k | AutoReplyBody(facts, k).Some?
      ensures k in cache
    {
      var j := EntryOf(facts, k);
      EntryReplyBody(facts, j);
    }
  }

  /** The auto-reply body of an entry is what the record answers for its key. */
  lemma EntryReplyBody(facts: GuildFacts, j: int)
    requires Valid(facts) && 0 <= j < |facts|
    ensures AutoReplyBody(facts, facts[j].0) == if AutoReplies(facts[j].1) then Some(facts[j].1.value.body) else None
  {
    GetEntry(facts, j);
  }

  /** The position of a present key. */
  lemma EntryOf(facts: GuildFacts, k: string) returns (j: int)
    requires Lookup(facts, k).Some?
    ensures 0 <= j < |facts| && facts[j].0 == k
  {
    assert k in Keys(facts);
    j :| 0 <= j < |facts| && Keys(facts)[j] == k;
  }

  /** `generateContentCache`: walk the entries in order and map every
      subject whose fact has auto-reply on to that fact's body. */
  method GenerateContentCache(facts: GuildFacts) returns (cache: map<string, string>)
    requires Valid(facts)
    ensures forall k :: k in cache <==> AutoReplyBody(facts, k).Some?
    ensures forall k :: k in cache ==> AutoReplyBody(facts, k) == Some(cache[k])
  {
    cache := map[];
    var i := 0;
    while i < |facts|
      invariant 0 <= i <= |facts|
      invariant CachedUpTo(facts, cache, i)
    {
      CacheStep(facts, cache, i);
      var (k, v) := facts[i];
      if v.Some? && v.value.autoReply {
        cache := cache[k := v.value.body];
      }
      i := i + 1;
    }
    CacheMatchesRecord(facts, cache);
  }

  /** `handleMessageCreation`: the message content, serialised, is looked up
      in the freshly derived cache; a non-empty body is sent as the reply. */
  method HandleMessage(facts: GuildFacts, content: string) returns (reply: Option<string>)
    requires Valid(facts)
    ensures reply.Some? <==>
      && Lookup(facts, SerializeSubject(content)).Some?
      && Lookup(facts, SerializeSubject(content)).value.autoReply
      && Lookup(facts, SerializeSubject(content)).value.body != ""
    ensures reply.Some? ==> reply.value == Lookup(facts, SerializeSubject(content)).value.body
  {
    var cache := GenerateContentCache(facts);
    var key := SerializeSubject(content);
    if key in cache && cache[key] != "" {
      reply := Some(cache[key]);
    } else {
      reply := None;
    }
  }

  // ---------------------------------------------------------------------------
  // Subject autocomplete
  // ---------------------------------------------------------------------------

  /** Discord accepts at most 25 autocomplete choices. */
  const ChoiceLimit := 25

  /** The keys containing `query`, in key order. */
  function Matching(keys: seq<string>, query: string): (m: seq<string>)
    ensures |m| <= |keys|
    ensures forall x :: x in m <==> x in keys && Contains(x, query)
    decreases |keys|
  {
    if |keys| == 0 then []
    else
      var last := keys[|keys| - 1];
      assert keys == keys[..|keys| - 1] + [last];
      Matching(keys[..|keys| - 1], query) + (if Contains(last, query) then [last] else [])
  }

  /** The first 25 of the matches found so far, as the walk extends them by
      at most one key. */
  lemma FirstChoicesStep(m: seq<string>, x: seq<string>)
    requires |x| <= 1
    ensures |m| >= ChoiceLimit ==> (m + x)[..Min(ChoiceLimit, |m + x|)] == m[..Min(ChoiceLimit, |m|)]
    ensures |m| < ChoiceLimit ==> (m + x)[..Min(ChoiceLimit, |m + x|)] == m + x
  {
    if |m| >= ChoiceLimit {
      assert (m + x)[..ChoiceLimit] == m[..ChoiceLimit];
    }
  }

  /** `respondToSubjectAutocomplete`: the first 25 subject keys that contain
      the serialised text typed so far. */
  method Autocomplete(keys: seq<string>, focused: string) returns (choices: seq<string>)
    ensures |choices| <= ChoiceLimit
    ensures forall x :: x in choices ==> x in keys && Contains(x, SerializeSubject(focused))
    ensures choices <= Matching(keys, SerializeSubject(focused))
    ensures |Matching(keys, SerializeSubject(focused))| <= ChoiceLimit ==>
      forall k :: k in keys && Contains(k, SerializeSubject(focused)) ==> k in choices
    ensures |Matching(keys, SerializeSubject(focused))| >= ChoiceLimit ==> |choices| == ChoiceLimit
  {
    var query := SerializeSubject(focused);
    choices := [];
    var i := 0;
    while i < |keys|
      invariant 0 <= i <= |keys|
      invariant choices == Matching(keys[..i], query)[..Min(ChoiceLimit, |Matching(keys[..i], query)|)]
    {
      assert keys[..i + 1][..i] == keys[..i];
      var found := if Contains(keys[i], query) then [keys[i]] else [];
      FirstChoicesStep(Matching(keys[..i], query), found);
      if found != [] && |choices| < ChoiceLimit {
        choices := choices + found;
      }
      i := i + 1;
    }
    assert keys[..i] == keys;
    var m := Matching(keys, query);
    assert forall x :: x in choices ==> x in m;
  }

  // ---------------------------------------------------------------------------
  // Switching auto-reply
  // ---------------------------------------------------------------------------

  /** `handleAutoReplyCommand`: find the fact under the serialised subject and
      set or clear its auto-reply flag in place; None when there is no such
      fact (the "could not find" reply, nothing written). */
  function SetAutoReply(facts: GuildFacts, raw: string, enabled: bool): (r: Option<GuildFacts>)
    ensures r.None? <==> Lookup(facts, SerializeSubject(raw)).None?
    ensures r.Some? ==>
      var key := SerializeSubject(raw);
      var f := Lookup(facts, key).value;
      && Lookup(r.value, key) == Some(f.(autoReply := enabled))
      && AutoReplyBody(r.value, key) == (if enabled then Some(f.body) else None)
      && Keys(r.value) == Keys(facts)
      && (forall k :: k != key ==> Get(r.value, k) == Get(facts, k))
      && (Valid(facts) ==> Valid(r.value))
  {
    var key := SerializeSubject(raw);
    match Lookup(facts, key)
    case None => None
    case Some(f) => Some(Put(facts, key, Some(f.(autoReply := enabled))))
  }

  // ---------------------------------------------------------------------------
  // The edit form
  // ---------------------------------------------------------------------------

  /** What the edit form leads to: a removal (reporting the removed fact's
      author), the refusal to remove a missing fact, a submission without a
      subject, a refusal because the fact belongs to someone else, or a save. */
  datatype EditOutcome =
    | Removed(facts: GuildFacts, author: string)
    | NotRemovable
    | NoSubject
    | NotYours
    | Saved(facts: GuildFacts, fact: Fact)

  /** The body that asks for removal instead of an edit. */
  const RemoveWord := "REMOVE"

  /** `assertFactOwnership`'s verdict: anyone may write a new subject; an
      existing fact only its author or a member allowed to manage messages. */
  predicate MayEdit(facts: GuildFacts, subject: string, user: string, mayManage: bool)
  {
    match Lookup(facts, subject)
    case None => true
    case Some(f) => f.authorId == user || mayManage
  }

  /** The removal half of the form, shared by both readings below. */
  function Remove(facts: GuildFacts, subject: string): (o: EditOutcome)
    ensures o.NotRemovable? <==> Lookup(facts, subject).None?
    ensures o.Removed? ==>
      && o.author == Lookup(facts, subject).value.authorId
      && Get(o.facts, subject) == None
      && (forall k :: k != subject ==> Get(o.facts, k) == Get(facts, k))
      && (forall k :: k in Keys(o.facts) <==> k in Keys(facts) && k != subject)
      && (Valid(facts) ==> Valid(o.facts))
    ensures o.Removed? || o.NotRemovable?
  {
    match Lookup(facts, subject)
    case None => NotRemovable
    case Some(f) => Removed(Delete(facts, subject), f.authorId)
  }

  /** The saving half: the fact is written under `subject` with the editor as
      author, keeping the auto-reply flag of the fact it replaces. */
  function Save(facts: GuildFacts, subject: string, body: string, user: string, stamp: string): (o: EditOutcome)
    ensures o.Saved? && o.fact == Fact(user, subject, body, stamp, Lookup(facts, subject).Some? && Lookup(facts, subject).value.autoReply)
    ensures o.Saved? ==>
      && Lookup(o.facts, subject) == Some(o.fact)
      && (forall k :: k != subject ==> Get(o.facts, k) == Get(facts, k))
      && (subject in Keys(facts) ==> Keys(o.facts) == Keys(facts))
      && (subject !in Keys(facts) ==> Keys(o.facts) == Keys(facts) + [subject])
      && (Valid(facts) ==> Valid(o.facts))
  {
    var prior := Lookup(facts, subject);
    var fact := Fact(user, subject, body, stamp, prior.Some? && prior.value.autoReply);
    Saved(Put(facts, subject, Some(fact)), fact)
  }

  /** `editFactWithModal` as written, after the form is submitted. `preset`
      is the serialised subject of `/info edit`, or None from the message
      context menu; `modalSubject` and `body` are the form's fields. A truthy
      preset with the body REMOVE removes the fact; otherwise the subject is
      the preset or, failing that, the form's subject, taken as typed. The
      ownership verdict is never awaited, so it gates nothing. */
  function EditFact(facts: GuildFacts, preset: Option<string>, modalSubject: string, body: string,
                    user: string, stamp: string): (o: EditOutcome)
    ensures preset.Some? && preset.value != "" && body == RemoveWord ==> o == Remove(facts, preset.value)
    ensures !(preset.Some? && preset.value != "" && body == RemoveWord) ==>
      (o.NoSubject? <==> preset.GetOr(modalSubject) == "")
    ensures !(preset.Some? && preset.value != "" && body == RemoveWord) && preset.GetOr(modalSubject) != "" ==>
      o == Save(facts, preset.GetOr(modalSubject), body, user, stamp)
    ensures !o.NotYours?
  {
    if preset.Some? && preset.value != "" && body == RemoveWord then
      Remove(facts, preset.value)
    else
      var subject := preset.GetOr(modalSubject);
      if subject == "" then NoSubject
      else Save(facts, subject, body, user, stamp)
  }

  /** The edit form as evidently intended: the ownership verdict is awaited
      before anything is written, and a subject typed into the context-menu
      form is serialised like every other subject. */
  function EditFactIntended(facts: GuildFacts, preset: Option<string>, modalSubject: string, body: string,
                            user: string, mayManage: bool, stamp: string): (o: EditOutcome)
    ensures o.Removed? ==>
      preset.Some? && body == RemoveWord && MayEdit(facts, preset.value, user, mayManage)
      && o == Remove(facts, preset.value)
    ensures o.Saved? ==>
      var subject := SerializeSubject(preset.GetOr(modalSubject));
      && o == Save(facts, subject, body, user, stamp)
      && MayEdit(facts, subject, user, mayManage)
      && SerializeSubject(o.fact.subject) == o.fact.subject
    ensures o.NotYours? ==>
      var s := if preset.Some? && preset.value != "" && !MayEdit(facts, preset.value, user, mayManage) then preset.value
               else SerializeSubject(preset.GetOr(modalSubject));
      && !MayEdit(facts, s, user, mayManage)
      && Lookup(facts, s).Some? && Lookup(facts, s).value.authorId != user
    ensures Normalized(facts) && o.Saved? ==> Normalized(o.facts)
    ensures Normalized(facts) && o.Removed? ==> Normalized(o.facts)
  {
    if preset.Some? && preset.value != "" && !MayEdit(facts, preset.value, user, mayManage) then
      NotYours
    else if preset.Some? && preset.value != "" && body == RemoveWord then
      Remove(facts, preset.value)
    else
      var subject := SerializeSubject(preset.GetOr(modalSubject));
      SerializeIdempotent(preset.GetOr(modalSubject));
      if subject == "" then NoSubject
      else if !MayEdit(facts, subject, user, mayManage) then NotYours
      else Save(facts, subject, body, user, stamp)
  }

  /** The two readings differ only where the fixes bite: for an editor who
      may edit, and a subject already in serialised form, they agree. */
  lemma EditReadingsAgree(facts: GuildFacts, preset: Option<string>, modalSubject: string, body: string,
                          user: string, mayManage: bool, stamp: string)
    requires preset.Some? ==> MayEdit(facts, preset.value, user, mayManage)
    requires MayEdit(facts, modalSubject, user, mayManage)
    requires SerializeSubject(preset.GetOr(modalSubject)) == preset.GetOr(modalSubject)
    ensures EditFactIntended(facts, preset, modalSubject, body, user, mayManage, stamp)
         == EditFact(facts, preset, modalSubject, body, user, stamp)
  {
  }

  /** A fact saved through the intended form can be found again by the
      subject it was typed with: the auto-reply switch reaches it. */
  lemma SavedFactIsReachable(facts: GuildFacts, preset: Option<string>, modalSubject: string, body: string,
                             user: string, mayManage: bool, stamp: string, enabled: bool)
    ensures var o := EditFactIntended(facts, preset, modalSubject, body, user, mayManage, stamp);
      o.Saved? ==> SetAutoReply(o.facts, preset.GetOr(modalSubject), enabled).Some?
  {
    SerializeIdempotent(preset.GetOr(modalSubject));
  }

  /** As written, a fact created from the context menu under a subject typed
      with a capital letter is stored under that spelling, and no subject
      given to the auto-reply switch serialises to it: it can never be
      switched on. */
  lemma ContextMenuSubjectUnreachable(raw: string, enabled: bool)
    ensures EditFact([], None, "Foo", "bar", "u", "t").Saved?
    ensures var o := EditFact([], None, "Foo", "bar", "u", "t");
      && Keys(o.facts) == ["Foo"]
      && SetAutoReply(o.facts, raw, enabled).None?
  {
    var o := EditFact([], None, "Foo", "bar", "u", "t");
    var key := SerializeSubject(raw);
    if |key| == 3 {
      assert key[0] == LowerChar(raw[0]);
      assert key[0] != 'F';
    }
    assert key != "Foo";
  }

  /** As written, a member who neither wrote a fact nor may manage messages
      overwrites it, and becomes its author. */
  lemma ForeignFactOverwritten()
    ensures var facts: GuildFacts := [("x", Some(Fact("alice", "x", "mine", "t0", false)))];
      && !MayEdit(facts, "x", "bob", false)
      && EditFact(facts, Some("x"), "", "yours", "bob", "t1").Saved?
      && Lookup(EditFact(facts, Some("x"), "", "yours", "bob", "t1").facts, "x").value.authorId == "bob"
      && EditFactIntended(facts, Some("x"), "", "yours", "bob", false, "t1") == NotYours
  {
  }
}
