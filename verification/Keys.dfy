/** Composite keys "type:id", under which the engine stores entities. */
module Keys {
  import opened Common

  function CreateKey(typ: string, id: string): string {
    typ + ":" + id
  }

  predicate NoColon(s: string) { ':' !in s }

  /** The position of the first colon, or |s|. */
  function FirstColon(s: string): (p: nat)
    ensures p <= |s| && NoColon(s[..p])
    ensures p < |s| ==> s[p] == ':'
  {
    if s == [] || s[0] == ':' then 0
    else
      var p := FirstColon(s[1..]);
      assert s[..p + 1] == [s[0]] + s[1..][..p];
      p + 1
  }

  /** strings.SplitN(key, ":", 2); a key without a colon is all id. */
  function ParseKey(key: string): (string, string) {
    var p := FirstColon(key);
    if p == |key| then ("", key) else (key[..p], key[p + 1..])
  }

  /** Parsing undoes creation for every id, as long as the type name has no colon. */
  lemma ParseCreated(typ: string, id: string)
    requires NoColon(typ)
    ensures ParseKey(CreateKey(typ, id)) == (typ, id)
  {
    var key := CreateKey(typ, id);
    var p := FirstColon(key);
    assert key[|typ|] == ':';
    assert forall i :: 0 <= i < |typ| ==> key[i] == typ[i];
    assert forall i :: 0 <= i < p ==> key[i] == key[..p][i];
    assert key[..p] == typ && key[p + 1..] == id;
  }

  /** Two entities share a key only if they share type and id. */
  lemma KeyInjective(typ1: string, id1: string, typ2: string, id2: string)
    requires NoColon(typ1) && NoColon(typ2)
    requires CreateKey(typ1, id1) == CreateKey(typ2, id2)
    ensures typ1 == typ2 && id1 == id2
  {
    ParseCreated(typ1, id1);
    ParseCreated(typ2, id2);
  }

  /** Exactly when entities of two different types can share a key: one type name continues the other after a colon. */
  lemma KeysMeetIff(a: string, b: string)
    requires a != b
    ensures (exists i, j :: CreateKey(a, i) == CreateKey(b, j)) <==> a + ":" <= b + ":" || b + ":" <= a + ":"
  {
    if i, j :| CreateKey(a, i) == CreateKey(b, j) {
      var key := CreateKey(a, i);
      assert key[..|a| + 1] == a + ":" && key[..|b| + 1] == b + ":";
    }
    if a + ":" <= b + ":" {
      KeysMeet(a, b, "1");
    } else if b + ":" <= a + ":" {
      KeysMeet(b, a, "1");
    }
  }

  /** Any id of the longer type then has a counterpart under the shorter. */
  lemma KeysMeet(a: string, b: string, id: string)
    requires a != b && a + ":" <= b + ":"
    ensures |a| < |b| && CreateKey(a, b[|a| + 1..] + ":" + id) == CreateKey(b, id)
  {
    Continues(a, b);
    assert b == a + ":" + b[|a| + 1..];
  }

  lemma Continues(a: string, b: string)
    requires a + ":" <= b + ":"
    ensures |a| <= |b| && b[..|a|] == a && (|a| < |b| ==> b[|a|] == ':') && (|a| == |b| ==> a == b)
  {
    assert (b + ":")[|a|] == (a + ":")[|a|] == ':';
    assert a == (a + ":")[..|a|] == (b + ":")[..|a|] == b[..|a|];
  }
}
