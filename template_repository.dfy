/** Workout templates and the users' follows of them. A follow row is only
    created when the (user, template) pair has none, so repeated follows
    leave one row per pair. The followed templates are listed by name. */
module TemplateRepository {
  import opened Base
  import opened Ordering

  datatype Template = Template(templateId: nat, name: string, description: string)

  datatype FollowRow = FollowRow(userId: nat, templateId: nat, followedAt: Instant)

  /** `name asc`, comparing code points (the C collation). */
  predicate LexLe(a: string, b: string)
  {
    a == [] || (b != [] && (a[0] < b[0] || (a[0] == b[0] && LexLe(a[1..], b[1..]))))
  }

  lemma {:induction false} LexLeTotal(a: string, b: string)
    ensures LexLe(a, b) || LexLe(b, a)
  {
    if a != [] && b != [] && a[0] == b[0] {
      LexLeTotal(a[1..], b[1..]);
    }
  }

  lemma {:induction false} LexLeTransitive(a: string, b: string, c: string)
    requires LexLe(a, b) && LexLe(b, c)
    ensures LexLe(a, c)
  {
    if a != [] && b != [] && c != [] && a[0] == b[0] && b[0] == c[0] {
      LexLeTransitive(a[1..], b[1..], c[1..]);
    }
  }

  predicate NameLe(a: Template, b: Template)
  {
    LexLe(a.name, b.name)
  }

  lemma NameLeIsTotalPreorder()
    ensures TotalPreorder(NameLe)
  {
    forall a: Template, b: Template ensures NameLe(a, b) || NameLe(b, a) {
      LexLeTotal(a.name, b.name);
    }
    forall a: Template, b: Template, c: Template | NameLe(a, b) && NameLe(b, c) ensures NameLe(a, c) {
      LexLeTransitive(a.name, b.name, c.name);
    }
  }

  function TemplateKey(t: Template): nat { t.templateId }

  /** Whether the user follows the template. */
  predicate Follows(follows: seq<FollowRow>, userId: nat, templateId: nat)
  {
    exists i :: 0 <= i < |follows| && follows[i].userId == userId && follows[i].templateId == templateId
  }

  /** At most one follow row per (user, template) pair. */
  ghost predicate OnePerPair(follows: seq<FollowRow>)
  {
    forall i, j :: 0 <= i < j < |follows| ==>
      !(follows[i].userId == follows[j].userId && follows[i].templateId == follows[j].templateId)
  }

  /** The user follows a template in a table exactly when an earlier row or the last row says so. */
  lemma FollowsLast(follows: seq<FollowRow>, userId: nat)
    requires follows != []
    ensures forall id: nat :: Follows(follows, userId, id) <==>
              Follows(follows[..|follows| - 1], userId, id)
              || (follows[|follows| - 1].userId == userId && follows[|follows| - 1].templateId == id)
  {
    var init := follows[..|follows| - 1];
    forall id: nat ensures Follows(follows, userId, id) <==>
        Follows(init, userId, id) || (follows[|follows| - 1].userId == userId && follows[|follows| - 1].templateId == id)
    {
      if Follows(init, userId, id) {
        var i :| 0 <= i < |init| && init[i].userId == userId && init[i].templateId == id;
        assert follows[i] == init[i];
      }
      if Follows(follows, userId, id) {
        var i :| 0 <= i < |follows| && follows[i].userId == userId && follows[i].templateId == id;
        if i < |init| {
          assert init[i] == follows[i];
        }
      }
    }
  }

  /** `templates join user_template_follows on template_id where user_id = ?`:
      for each of the user's follow rows, in table order, the template it names. */
  function Joined(templates: seq<Template>, follows: seq<FollowRow>, userId: nat): (r: seq<Template>)
    ensures forall t :: t in r <==> t in templates && Follows(follows, userId, t.templateId)
  {
    if follows == [] then []
    else
      var init, f := follows[..|follows| - 1], follows[|follows| - 1];
      var r := Joined(templates, init, userId) + (if f.userId == userId then Owned(templates, TemplateKey, f.templateId) else []);
      FollowsLast(follows, userId);
      r
  }

  /** The follow table after Follow succeeds. */
  function AfterFollow(follows: seq<FollowRow>, userId: nat, templateId: nat, followedAt: Instant): (r: seq<FollowRow>)
    ensures Follows(r, userId, templateId)
    ensures Follows(follows, userId, templateId) ==> r == follows
    ensures !Follows(follows, userId, templateId) ==> r == follows + [FollowRow(userId, templateId, followedAt)]
  {
    if Follows(follows, userId, templateId) then follows
    else
      var r := follows + [FollowRow(userId, templateId, followedAt)];
      assert r[|follows|].userId == userId && r[|follows|].templateId == templateId;
      r
  }

  /** Following twice is following once, and a follow keeps one row per pair. */
  lemma FollowIdempotent(follows: seq<FollowRow>, userId: nat, templateId: nat, at1: Instant, at2: Instant)
    ensures AfterFollow(AfterFollow(follows, userId, templateId, at1), userId, templateId, at2)
         == AfterFollow(follows, userId, templateId, at1)
    ensures OnePerPair(follows) ==> OnePerPair(AfterFollow(follows, userId, templateId, at1))
  {
    if OnePerPair(follows) && !Follows(follows, userId, templateId) {
      var r := AfterFollow(follows, userId, templateId, at1);
      forall i, j | 0 <= i < j < |r|
        ensures !(r[i].userId == r[j].userId && r[i].templateId == r[j].templateId)
      {
        if j == |follows| {
          assert r[i] == follows[i];
        }
      }
    }
  }

  /** Following a template adds it to the user's list and changes no other user's list. */
  lemma FollowListsTemplate(templates: seq<Template>, follows: seq<FollowRow>, userId: nat, templateId: nat,
                            at: Instant, other: nat)
    requires other != userId
    ensures forall t :: t in Joined(templates, AfterFollow(follows, userId, templateId, at), userId) <==>
                        t in templates && (t.templateId == templateId || Follows(follows, userId, t.templateId))
    ensures Joined(templates, AfterFollow(follows, userId, templateId, at), other) == Joined(templates, follows, other)
  {
    var after := AfterFollow(follows, userId, templateId, at);
    if !Follows(follows, userId, templateId) {
      assert after[..|after| - 1] == follows;
      forall id: nat ensures Follows(after, userId, id) <==> id == templateId || Follows(follows, userId, id) {
        if Follows(follows, userId, id) {
          var i :| 0 <= i < |follows| && follows[i].userId == userId && follows[i].templateId == id;
          assert after[i] == follows[i];
        }
        if Follows(after, userId, id) && id != templateId {
          var i :| 0 <= i < |after| && after[i].userId == userId && after[i].templateId == id;
          assert i < |follows| && follows[i] == after[i];
        }
      }
    }
  }

  class TemplateCatalog {
    var templates: seq<Template>
    var follows: seq<FollowRow>

    constructor (templates: seq<Template>)
      ensures this.templates == templates && follows == []
    {
      this.templates := templates;
      follows := [];
    }

    /** templateRepository.ListFollowedByUserID: the templates the user
        follows, by name. */
    method ListFollowedByUserID(userId: nat, fault: Option<string>) returns (r: Result<seq<Template>>)
      ensures fault.Some? ==> r == Err(Driver(fault.value))
      ensures fault.None? ==> r.Ok?
      ensures r.Ok? ==> r.value == SortBy(Joined(templates, follows, userId), NameLe)
      ensures r.Ok? ==> forall t :: t in r.value <==> t in templates && Follows(follows, userId, t.templateId)
      ensures r.Ok? ==> Sorted(r.value, NameLe)
    {
      if fault.Some? {
        return Err(Driver(fault.value));
      }
      var joined := Joined(templates, follows, userId);
      var sorted := SortBy(joined, NameLe);
      SameElements(sorted, joined);
      NameLeIsTotalPreorder();
      SortBySorted(joined, NameLe);
      r := Ok(sorted);
    }

    /** templateRepository.FindByID: the template with that key, or not-found. */
    method FindByID(templateId: nat, fault: Option<string>) returns (r: Result<Template>)
      ensures fault.Some? ==> r == Err(Driver(fault.value))
      ensures fault.None? ==> (r == Err(RecordNotFound) <==> forall t :: t in templates ==> t.templateId != templateId)
      ensures r.Ok? ==> r.value in templates && r.value.templateId == templateId
    {
      if fault.Some? {
        return Err(Driver(fault.value));
      }
      var found := Owned(templates, TemplateKey, templateId);
      if found == [] {
        return Err(RecordNotFound);
      }
      assert found[0] in found;
      r := Ok(found[0]);
    }

    /** templateRepository.Follow: nothing when the pair is already followed,
        otherwise one new follow row. */
    method Follow(userId: nat, templateId: nat, followedAt: Instant,
                  lookupFault: Option<string>, createFault: Option<string>) returns (err: Option<Error>)
      modifies this
      ensures templates == old(templates)
      ensures lookupFault.Some? ==> err == Some(Driver(lookupFault.value)) && follows == old(follows)
      ensures lookupFault.None? && Follows(old(follows), userId, templateId) ==> err.None? && follows == old(follows)
      ensures lookupFault.None? && !Follows(old(follows), userId, templateId) ==> err == Outcome(createFault)
      ensures follows == if err.None? then AfterFollow(old(follows), userId, templateId, followedAt) else old(follows)
      ensures OnePerPair(old(follows)) ==> OnePerPair(follows)
    {
      FollowIdempotent(follows, userId, templateId, followedAt, followedAt);
      if lookupFault.Some? {
        return Some(Driver(lookupFault.value));
      }
      var i := 0;
      while i < |follows|
        invariant 0 <= i <= |follows|
        invariant forall k :: 0 <= k < i ==> !(follows[k].userId == userId && follows[k].templateId == templateId)
      {
        if follows[i].userId == userId && follows[i].templateId == templateId {
          return None;
        }
        i := i + 1;
      }
      if createFault.Some? {
        return Some(Driver(createFault.value));
      }
      follows := follows + [FollowRow(userId, templateId, followedAt)];
      err := None;
    }
  }
}
