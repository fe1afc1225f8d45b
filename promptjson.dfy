/** The prompt-JSON page: a subject, a list of titled extra fields and the
    key/value object built from them. */
module PromptJsonPage {
  import opened JsText

  /** One extra field. */
  datatype Extra = Extra(id: int, title: string, value: string)

  /** The field `updateExtra` writes. */
  datatype Field = Title | Value

  /* ---------- the extras list ---------- */

  function WithField(e: Extra, field: Field, val: string): Extra {
    match field
    case Title => e.(title := val)
    case Value => e.(value := val)
  }

  /** `extras.map(e => e.id === id ? {...e, [field]: val} : e)`. */
  function Updated(xs: seq<Extra>, id: int, field: Field, val: string): (r: seq<Extra>)
    ensures |r| == |xs|
  {
    seq(|xs|, i requires 0 <= i < |xs| => if xs[i].id == id then WithField(xs[i], field, val) else xs[i])
  }

  /** An update keeps the length, the order and every id; it writes the one
      field of the matching entries and nothing else. */
  lemma UpdatedSpec(xs: seq<Extra>, id: int, field: Field, val: string)
    ensures var r := Updated(xs, id, field, val);
      forall i :: 0 <= i < |xs| ==>
        && r[i].id == xs[i].id
        && (xs[i].id != id ==> r[i] == xs[i])
        && (xs[i].id == id && field == Title ==> r[i].title == val && r[i].value == xs[i].value)
        && (xs[i].id == id && field == Value ==> r[i].value == val && r[i].title == xs[i].title)
  {
  }

  /** An update for an id not in the list changes nothing. */
  lemma UpdateMissing(xs: seq<Extra>, id: int, field: Field, val: string)
    requires forall i :: 0 <= i < |xs| ==> xs[i].id != id
    ensures Updated(xs, id, field, val) == xs
  {
  }

  /** `extras.filter(e => e.id !== id)`. */
  function Removed(xs: seq<Extra>, id: int): seq<Extra>
    decreases |xs|
  {
    if xs == [] then []
    else
      var r := Removed(xs[..|xs| - 1], id);
      if xs[|xs| - 1].id == id then r else r + [xs[|xs| - 1]]
  }

  /** The number of entries carrying `id`. */
  function CountId(xs: seq<Extra>, id: int): nat
    decreases |xs|
  {
    if xs == [] then 0
    else CountId(xs[..|xs| - 1], id) + (if xs[|xs| - 1].id == id then 1 else 0)
  }

  /** Removal keeps exactly the entries with other ids, in their order, and
      drops one element per entry carrying the id. */
  lemma RemovedSpec(xs: seq<Extra>, id: int)
    ensures forall e :: e in Removed(xs, id) <==> e in xs && e.id != id
    ensures IsSubsequence(Removed(xs, id), xs)
    ensures |Removed(xs, id)| + CountId(xs, id) == |xs|
  {
    RemovedMembers(xs, id);
    RemovedSubsequence(xs, id);
    RemovedCount(xs, id);
  }

  lemma {:induction false} RemovedMembers(xs: seq<Extra>, id: int)
    ensures forall e :: e in Removed(xs, id) <==> e in xs && e.id != id
    decreases |xs|
  {
    if xs != [] {
      var front := xs[..|xs| - 1];
      RemovedMembers(front, id);
      assert xs == front + [xs[|xs| - 1]];
    }
  }

  lemma {:induction false} RemovedSubsequence(xs: seq<Extra>, id: int)
    ensures IsSubsequence(Removed(xs, id), xs)
    decreases |xs|
  {
    if xs != [] {
      var front := xs[..|xs| - 1];
      var x := xs[|xs| - 1];
      RemovedSubsequence(front, id);
      var r := Removed(front, id);
      if x.id != id {
        assert (r + [x])[..|r + [x]| - 1] == r;
      } else {
        assert xs == front + [x];
        SubsequenceExtend(r, front, x);
      }
    }
  }

  lemma {:induction false} RemovedCount(xs: seq<Extra>, id: int)
    ensures |Removed(xs, id)| + CountId(xs, id) == |xs|
    decreases |xs|
  {
    if xs != [] {
      RemovedCount(xs[..|xs| - 1], id);
    }
  }

  /** Removing twice is removing once. */
  lemma {:induction false} RemoveIdempotent(xs: seq<Extra>, id: int)
    ensures Removed(Removed(xs, id), id) == Removed(xs, id)
    decreases |xs|
  {
    if xs != [] {
      var front := xs[..|xs| - 1];
      var x := xs[|xs| - 1];
      RemoveIdempotent(front, id);
      if x.id != id {
        var r := Removed(front, id);
        assert (r + [x])[..|r + [x]| - 1] == r;
      }
    }
  }

  /** Removal distributes over concatenation. */
  lemma {:induction false} RemovedAppend(xs: seq<Extra>, ys: seq<Extra>, id: int)
    ensures Removed(xs + ys, id) == Removed(xs, id) + Removed(ys, id)
    decreases |ys|
  {
    if ys == [] {
      assert xs + ys == xs;
    } else {
      var front := ys[..|ys| - 1];
      var y := ys[|ys| - 1];
      assert (xs + ys)[..|xs + ys| - 1] == xs + front;
      assert (xs + ys)[|xs + ys| - 1] == y;
      RemovedAppend(xs, front, id);
    }
  }

  /** A list holding no entry with the id is unchanged by removal. */
  lemma {:induction false} RemovedNone(xs: seq<Extra>, id: int)
    requires forall i :: 0 <= i < |xs| ==> xs[i].id != id
    ensures Removed(xs, id) == xs
    decreases |xs|
  {
    if xs != [] {
      var front := xs[..|xs| - 1];
      RemovedNone(front, id);
      assert front + [xs[|xs| - 1]] == xs;
    }
  }

  /** Adding an entry with a fresh id and then removing that id gives the
      list back. */
  lemma AddThenRemove(xs: seq<Extra>, id: int)
    requires forall i :: 0 <= i < |xs| ==> xs[i].id != id
    ensures Removed(xs + [Extra(id, "Detail", "")], id) == xs
  {
    RemovedAppend(xs, [Extra(id, "Detail", "")], id);
    RemovedNone(xs, id);
    assert Removed([Extra(id, "Detail", "")], id) == [];
    assert xs + [] == xs;
  }

  /* ---------- the generated object ---------- */

  /** A JavaScript object as its keys and values in enumeration order. */
  type JsonObject = seq<(string, string)>

  /** `obj[k]`. */
  function Get(obj: JsonObject, k: string): Option<string>
    decreases |obj|
  {
    if obj == [] then None
    else if obj[0].0 == k then Some(obj[0].1)
    else Get(obj[1..], k)
  }

  /** `{...obj, [k]: v}`: an existing key keeps its place and takes the new
      value, a new key goes last. */
  function Put(obj: JsonObject, k: string, v: string): JsonObject
    decreases |obj|
  {
    if obj == [] then [(k, v)]
    else if obj[0].0 == k then [(k, v)] + obj[1..]
    else [obj[0]] + Put(obj[1..], k, v)
  }

  /** Appending a key to a key list unless it is already there. */
  function AddKey(ks: seq<string>, k: string): seq<string> {
    if k in ks then ks else ks + [k]
  }

  /** `Put` reads back the value it wrote, leaves other keys alone, and
      adds its key to the key order only when the key is new. */
  lemma PutSpec(obj: JsonObject, k: string, v: string)
    ensures Get(Put(obj, k, v), k) == Some(v)
    ensures forall k' :: k' != k ==> Get(Put(obj, k, v), k') == Get(obj, k')
    ensures Keys(Put(obj, k, v)) == AddKey(Keys(obj), k)
  {
    PutGet(obj, k, v);
    PutKeys(obj, k, v);
  }

  lemma {:induction false} PutGet(obj: JsonObject, k: string, v: string)
    ensures Get(Put(obj, k, v), k) == Some(v)
    ensures forall k' :: k' != k ==> Get(Put(obj, k, v), k') == Get(obj, k')
    decreases |obj|
  {
    if obj != [] {
      if obj[0].0 == k {
        assert ([(k, v)] + obj[1..])[1..] == obj[1..];
      } else {
        PutGet(obj[1..], k, v);
        var r := Put(obj[1..], k, v);
        assert ([obj[0]] + r)[1..] == r;
      }
    }
  }

  lemma {:induction false} PutKeys(obj: JsonObject, k: string, v: string)
    ensures Keys(Put(obj, k, v)) == AddKey(Keys(obj), k)
    decreases |obj|
  {
    if obj != [] {
      var ks := Keys(obj);
      assert ks == [obj[0].0] + Keys(obj[1..]);
      if obj[0].0 == k {
        assert Keys([(k, v)] + obj[1..]) == ks;
      } else {
        PutKeys(obj[1..], k, v);
        var r := Put(obj[1..], k, v);
        assert Keys([obj[0]] + r) == [obj[0].0] + Keys(r);
        assert k in ks <==> k in Keys(obj[1..]);
        assert [obj[0].0] + (Keys(obj[1..]) + [k]) == ks + [k];
      }
    }
  }

  /** `extras.reduce((a, e) => ({...a, [e.title]: e.value}), {})`. */
  function Reduced(xs: seq<Extra>): JsonObject
    decreases |xs|
  {
    if xs == [] then []
    else var e := xs[|xs| - 1]; Put(Reduced(xs[..|xs| - 1]), e.title, e.value)
  }

  /** `{...a, ...b}`. */
  function Merge(a: JsonObject, b: JsonObject): JsonObject
    decreases |b|
  {
    if b == [] then a
    else var p := b[|b| - 1]; Put(Merge(a, b[..|b| - 1]), p.0, p.1)
  }

  /** The object `generate` serialises: `{subject, ...reduced}`. */
  function PromptObject(subject: string, xs: seq<Extra>): JsonObject {
    Merge([("subject", subject)], Reduced(xs))
  }

  /** The value of the last extra carrying `title`. */
  function LastValue(xs: seq<Extra>, title: string): Option<string>
    decreases |xs|
  {
    if xs == [] then None
    else if xs[|xs| - 1].title == title then Some(xs[|xs| - 1].value)
    else LastValue(xs[..|xs| - 1], title)
  }

  /** The titles of the extras, in list order. */
  function Titles(xs: seq<Extra>): (ts: seq<string>)
    ensures |ts| == |xs|
  {
    seq(|xs|, i requires 0 <= i < |xs| => xs[i].title)
  }

  /** Adding keys one at a time to `ks`, skipping those already present:
      the first-occurrence order. */
  function AddKeys(ks: seq<string>, ts: seq<string>): seq<string>
    decreases |ts|
  {
    if ts == [] then ks else AddKey(AddKeys(ks, ts[..|ts| - 1]), ts[|ts| - 1])
  }

  lemma {:induction false} ReducedGet(xs: seq<Extra>, k: string)
    ensures Get(Reduced(xs), k) == LastValue(xs, k)
    decreases |xs|
  {
    if xs != [] {
      var e := xs[|xs| - 1];
      ReducedGet(xs[..|xs| - 1], k);
      PutSpec(Reduced(xs[..|xs| - 1]), e.title, e.value);
    }
  }

  /** A key reads a value exactly when it is one of the object's keys. */
  lemma {:induction false} GetFound(obj: JsonObject, k: string)
    ensures Get(obj, k).Some? <==> k in Keys(obj)
    decreases |obj|
  {
    if obj != [] {
      GetFound(obj[1..], k);
      assert Keys(obj) == [obj[0].0] + Keys(obj[1..]);
    }
  }

  /** Spreading `b` over `a`, for a `b` without repeated keys. */
  lemma {:induction false} MergeGet(a: JsonObject, b: JsonObject, k: string)
    requires NoRepeats(Keys(b))
    ensures Get(Merge(a, b), k) == if Get(b, k).Some? then Get(b, k) else Get(a, k)
    decreases |b|
  {
    if b != [] {
      var p := b[|b| - 1];
      var front := b[..|b| - 1];
      var ks := Keys(b);
      assert Keys(front) == ks[..|b| - 1];
      MergeGet(a, front, k);
      PutSpec(Merge(a, front), p.0, p.1);
      GetSnoc(front, p, k);
      assert front + [p] == b;
      if k == p.0 {
        GetFound(front, k);
        assert ks[|b| - 1] == k;
        assert k !in Keys(front);
      }
    }
  }

  /** Reading a key of `obj + [p]`: the first match wins. */
  lemma {:induction false} GetSnoc(obj: JsonObject, p: (string, string), k: string)
    ensures Get(obj + [p], k) == if Get(obj, k).Some? then Get(obj, k) else if p.0 == k then Some(p.1) else None
    decreases |obj|
  {
    if obj == [] {
      assert obj + [p] == [p];
    } else {
      assert (obj + [p])[0] == obj[0];
      assert (obj + [p])[1..] == obj[1..] + [p];
      GetSnoc(obj[1..], p, k);
    }
  }

  lemma {:induction false} ReducedKeys(xs: seq<Extra>)
    ensures Keys(Reduced(xs)) == AddKeys([], Titles(xs))
    decreases |xs|
  {
    if xs != [] {
      var e := xs[|xs| - 1];
      ReducedKeys(xs[..|xs| - 1]);
      PutSpec(Reduced(xs[..|xs| - 1]), e.title, e.value);
      assert Titles(xs)[..|xs| - 1] == Titles(xs[..|xs| - 1]);
    }
  }

  lemma {:induction false} MergeKeys(a: JsonObject, b: JsonObject)
    ensures Keys(Merge(a, b)) == AddKeys(Keys(a), Keys(b))
    decreases |b|
  {
    if b != [] {
      var p := b[|b| - 1];
      MergeKeys(a, b[..|b| - 1]);
      PutSpec(Merge(a, b[..|b| - 1]), p.0, p.1);
      assert Keys(b)[..|b| - 1] == Keys(b[..|b| - 1]);
    }
  }

  /** The keys `AddKeys` produces are those of `ks` and `ts`. */
  lemma {:induction false} AddKeysMembers(ks: seq<string>, ts: seq<string>)
    ensures forall k :: k in AddKeys(ks, ts) <==> k in ks || k in ts
    decreases |ts|
  {
    if ts != [] {
      var front := ts[..|ts| - 1];
      AddKeysMembers(ks, front);
      assert ts == front + [ts[|ts| - 1]];
    }
  }

  /** Adding the first-occurrence list of `ts` is adding `ts` itself. */
  lemma {:induction false} AddKeysDedup(ks: seq<string>, ts: seq<string>)
    ensures AddKeys(ks, AddKeys([], ts)) == AddKeys(ks, ts)
    decreases |ts|
  {
    if ts != [] {
      var front := ts[..|ts| - 1];
      var x := ts[|ts| - 1];
      var d := AddKeys([], front);
      AddKeysDedup(ks, front);
      if x in d {
        AddKeysMembers([], front);
        AddKeysMembers(ks, front);
      } else {
        assert (d + [x])[..|d|] == d;
      }
    }
  }

  /** `AddKeys` never repeats a key when `ks` has no repeats. */
  lemma {:induction false} AddKeysDistinct(ks: seq<string>, ts: seq<string>)
    requires NoRepeats(ks)
    ensures NoRepeats(AddKeys(ks, ts))
    decreases |ts|
  {
    if ts != [] {
      AddKeysDistinct(ks, ts[..|ts| - 1]);
      var d := AddKeys(ks, ts[..|ts| - 1]);
      var x := ts[|ts| - 1];
      assert NoRepeats(d);
      assert AddKeys(ks, ts) == AddKey(d, x);
      if x !in d {
        var r := d + [x];
        forall i, j | 0 <= i < j < |r| ensures r[i] != r[j] {
          assert r[i] == d[i];
          assert d[i] in d;
          if j < |d| {
            assert r[j] == d[j];
          }
        }
      }
    }
  }

  /** `AddKeys` only appends: `ks` stays a prefix. */
  lemma {:induction false} AddKeysPrefix(ks: seq<string>, ts: seq<string>)
    ensures |AddKeys(ks, ts)| >= |ks| && AddKeys(ks, ts)[..|ks|] == ks
    decreases |ts|
  {
    if ts != [] {
      var d := AddKeys(ks, ts[..|ts| - 1]);
      AddKeysPrefix(ks, ts[..|ts| - 1]);
      assert (d + [ts[|ts| - 1]])[..|ks|] == d[..|ks|];
    }
  }

  /** The generated object lists `subject` first and then every other title
      once, in order of first occurrence, with no key twice. */
  lemma PromptObjectKeys(subject: string, xs: seq<Extra>)
    ensures Keys(PromptObject(subject, xs)) == AddKeys(["subject"], Titles(xs))
    ensures var ks := Keys(PromptObject(subject, xs));
      && ks[0] == "subject"
      && (forall k :: k in ks <==> k == "subject" || k in Titles(xs))
      && NoRepeats(ks)
  {
    var obj := [("subject", subject)];
    MergeKeys(obj, Reduced(xs));
    ReducedKeys(xs);
    assert Keys(obj) == ["subject"];
    AddKeysDedup(["subject"], Titles(xs));
    AddKeysMembers(["subject"], Titles(xs));
    AddKeysDistinct(["subject"], Titles(xs));
    AddKeysPrefix(["subject"], Titles(xs));
  }

  /** Every title reads the value of its last extra; `subject` reads the
      subject unless an extra is titled "subject". */
  lemma PromptObjectValues(subject: string, xs: seq<Extra>, k: string)
    ensures Get(PromptObject(subject, xs), k) ==
      if LastValue(xs, k).Some? then LastValue(xs, k)
      else if k == "subject" then Some(subject) else None
  {
    ReducedKeys(xs);
    AddKeysDistinct([], Titles(xs));
    MergeGet([("subject", subject)], Reduced(xs), k);
    ReducedGet(xs, k);
  }

  /* ---------- the page state ---------- */

  /** `newTitle && newTitle.trim()`: the answer of the title prompt is used
      when it is given and not blank. */
  predicate TitleAccepted(answer: Option<string>) {
    answer.Some? && Trim(answer.value) != ""
  }

  predicate HasId(xs: seq<Extra>, id: int) {
    exists i :: 0 <= i < |xs| && xs[i].id == id
  }

  class PromptJson {
    var subject: string
    var extras: seq<Extra>
    /** The generated object; `None` before the first generation (`""`). */
    var jsonResult: Option<JsonObject>

    constructor ()
      ensures subject == "" && extras == [] && jsonResult == None
    {
      subject := "";
      extras := [];
      jsonResult := None;
    }

    method SetSubject(s: string)
      modifies this
      ensures subject == s && extras == old(extras) && jsonResult == old(jsonResult)
    {
      subject := s;
    }

    /** `addExtra`, with the id that `Date.now()` gives. */
    method AddExtra(id: int)
      modifies this
      ensures extras == old(extras) + [Extra(id, "Detail", "")]
      ensures subject == old(subject) && jsonResult == old(jsonResult)
    {
      extras := extras + [Extra(id, "Detail", "")];
    }

    method UpdateExtra(id: int, field: Field, val: string)
      modifies this
      ensures extras == Updated(old(extras), id, field, val)
      ensures subject == old(subject) && jsonResult == old(jsonResult)
    {
      extras := Updated(extras, id, field, val);
    }

    method RemoveExtra(id: int)
      modifies this
      ensures extras == Removed(old(extras), id)
      ensures subject == old(subject) && jsonResult == old(jsonResult)
    {
      extras := Removed(extras, id);
    }

    /** `editTitle`, with the prompt's answer as a parameter (`None` for a
        cancelled prompt). A missing id throws before any change. */
    method EditTitle(id: int, answer: Option<string>)
      modifies this
      ensures extras == if HasId(old(extras), id) && TitleAccepted(answer)
        then Updated(old(extras), id, Title, Trim(answer.value)) else old(extras)
      ensures subject == old(subject) && jsonResult == old(jsonResult)
    {
      if HasId(extras, id) && TitleAccepted(answer) {
        UpdateExtra(id, Title, Trim(answer.value));
      }
    }

    /** `generate`: nothing happens for a blank subject; otherwise the
        object is built from the untrimmed subject and the extras. */
    method Generate()
      modifies this
      ensures jsonResult == if Trim(subject) == "" then old(jsonResult)
        else Some(PromptObject(subject, extras))
      ensures subject == old(subject) && extras == old(extras)
    {
      if Trim(subject) != "" {
        jsonResult := Some(PromptObject(subject, extras));
      }
    }
  }
}
