/**
 * The binary index file of src/smindex.c: writing and reading of its chunks of
 * roles and objects.
 *
 * The file is a sequence of words, one for each field of a structure and one
 * for each character of a string, whatever their width is. A chunk is a header
 * of type, flags and length, and its data. The data of the role chunk are the
 * strings with their lengths. The data of the object chunk are, object by
 * object, the structure, the tags, and the references or members, as many as
 * the structure tells. Tags are pointers into the OSM data, relative to its
 * beginning.
 */
module SmIndex {
  import opened Common

  type Words = seq<int>

  // ----- roles -----

  /** role_str() and strrole() number the roles from here on; 0 and 1 are "n/a" and the empty string. */
  const ROLE_FIRST_FREE_NUM: nat := 2

  /** The table of roles: the first one has the number ROLE_FIRST_FREE_NUM. */
  type Roles = seq<string>

  /** A string of bytes without the NUL that ends it in C. */
  ghost predicate CString(s: string) {
    forall c :: c in s ==> 0 < c as int < 256
  }

  /** Every role has only one number. */
  ghost predicate RolesOk(roles: Roles) {
    Distinct(roles) && forall r :: r in roles ==> CString(r)
  }

  /** role_str(). */
  function RoleStr(roles: Roles, i: nat): string {
    if i == 0 then "n/a" else if i == 1 then ""
    else if i - 2 < |roles| then roles[i - 2] else "n/a"
  }

  /** strrole() for a string of len characters: the number of a role, which is added to the table if it is new. */
  method StrRole(roles: Roles, s: string, len: nat) returns (n: nat, roles': Roles)
    requires RolesOk(roles) && CString(s) && |s| <= len
    ensures RolesOk(roles') && roles <= roles' && (RoleStr(roles', n) == s)
    ensures roles' == if len == 0 then roles else AddRole(roles, s)
    ensures s != "n/a" && (s == "" ==> len == 0 && "" !in roles) ==> forall i: nat :: RoleStr(roles', i) == s <==>
      i == n
  {
    if len == 0 {
      return 1, roles;
    }
    var i := 0;
    while i < |roles|
      invariant i <= |roles| && s !in roles[..i]
    {
      if roles[i] == s {
        return i + 2, roles;
      }
      assert roles[..i + 1] == roles[..i] + [roles[i]];
      i := i + 1;
    }
    assert roles[..|roles|] == roles;
    return i + 2, roles + [s];
  }

  function AddRole(roles: Roles, s: string): Roles {
    if s in roles then roles else roles + [s]
  }

  function Chars(s: string): (w: Words)
    ensures |w| == |s|
  {
    seq(|s|, i requires 0 <= i < |s| => s[i] as int)
  }

  /** What a short has of a length. */
  function Short(n: nat): (r: int)
    ensures -0x8000 <= r < 0x8000 && r <= n && (r == n <==> n < 0x8000)
  {
    (n + 0x8000) % 0x1_0000 - 0x8000
  }

  /**
   * Length with the terminating NUL, and as many characters of the string. For a negative length
   * nothing of the string is written that could be read again.
   */
  function RoleWords(s: string): Words {
    var n := Short(|s| + 1);
    if n <= 0 then [n] else [n] + (Chars(s) + [0])[..n]
  }

  /** All lengths fit into a short. */
  ghost predicate AllShort(ss: seq<string>) {
    forall s :: s in ss ==> |s| + 1 < 0x8000
  }

  /** No length becomes negative: a write of a negative length fails. */
  ghost predicate Writable(ss: seq<string>) {
    forall s :: s in ss ==> Short(|s| + 1) >= 0
  }

  function RolesWords(roles: Roles): Words {
    if roles == [] then [] else RoleWords(roles[0]) + RolesWords(roles[1..])
  }

  /** The part of the table that index_write_roles() writes: it takes "n/a" for the end of the table. */
  function Written(roles: Roles): Roles {
    roles[..FirstIndex(roles, "n/a")]
  }

  lemma {:induction false} RolesWordsAppend(roles: Roles, s: string)
    ensures RolesWords(roles + [s]) == RolesWords(roles) + RoleWords(s)
  {
    if roles != [] {
      RolesWordsAppend(roles[1..], s);
      assert (roles + [s])[1..] == roles[1..] + [s];
    } else {
      assert RolesWords([s]) == RoleWords(s) + RolesWords([]);
    }
  }

  lemma NoRoles()
    ensures RolesWords([]) == []
  {
  }

  /** index_write_roles(): the data of the chunk, or None if it fails. */
  method WriteRoles(roles: Roles) returns (r: Option<Words>)
    ensures r.Some? <==> Writable(Written(roles))
    ensures r.Some? ==> r.value == RolesWords(Written(roles))
  {
    hide RolesWords, FirstIndex, Short;
    var data := [];
    NoRoles();
    var i := ROLE_FIRST_FREE_NUM;
    while RoleStr(roles, i) != "n/a"
      invariant 2 <= i <= |roles| + 2 && "n/a" !in roles[..i - 2]
      invariant data == RolesWords(roles[..i - 2]) && Writable(roles[..i - 2])
      decreases |roles| + 2 - i
    {
      var s := RoleStr(roles, i);
      var len := Short(|s| + 1);
      assert roles[..i - 1] == roles[..i - 2] + [roles[i - 2]];
      if len < 0 {
        NotWritable(roles, i - 2);
        return None;
      }
      data := data + if len == 0 then [0] else [len] + (Chars(s) + [0])[..len];
      RolesWordsAppend(roles[..i - 2], s);
      i := i + 1;
    }
    FirstIndexIs(roles, "n/a", i - 2);
    return Some(data);
  }

  lemma NotWritable(roles: Roles, i: nat)
    requires i < |roles| && "n/a" !in roles[..i] && roles[i] != "n/a" && Short(|roles[i]| + 1) < 0
    ensures !Writable(Written(roles))
  {
    hide Short;
    assert roles[..i + 1] == roles[..i] + [roles[i]];
    NotFoundBefore(roles, "n/a", i + 1);
    assert Written(roles)[i] in Written(roles);
  }

  /** The C string that begins at w. */
  function Text(w: Words): (s: string)
    ensures |s| <= |w|
  {
    if w == [] || w[0] % 256 == 0 then "" else [(w[0] % 256) as char] + Text(w[1..])
  }

  lemma {:induction false} TextIsCString(w: Words)
    ensures CString(Text(w))
  {
    if w != [] && w[0] % 256 != 0 {
      TextIsCString(w[1..]);
    }
  }

  lemma {:induction false} TextOfChars(s: string)
    requires CString(s)
    ensures Text(Chars(s) + [0]) == s
  {
    if s == "" {
      assert Chars(s) + [0] == [0];
    } else {
      assert s[0] in s;
      forall c | c in s[1..] ensures c in s {
      }
      TextOfChars(s[1..]);
      assert (Chars(s) + [0])[1..] == Chars(s[1..]) + [0];
    }
  }

  /** The strings in the data of a chunk; None if a length makes no sense or a string is not terminated. */
  function ReadStrings(w: Words): Option<seq<string>>
    decreases |w|
  {
    if w == [] then Some([])
    else if w[0] == 0 then ReadStrings(w[1..])
    else if w[0] < 0 || w[0] > |w| - 1 || w[w[0]] != 0 then None
    else
      match ReadStrings(w[w[0] + 1..])
      case None => None
      case Some(ss) => Some([Text(w[1..w[0] + 1])] + ss)
  }

  /** Reading the written strings gives the same strings if and only if their lengths fit. */
  lemma {:induction false} ReadWrittenStrings(ss: seq<string>)
    requires forall s :: s in ss ==> CString(s)
    ensures ReadStrings(RolesWords(ss)) == Some(ss) <==> AllShort(ss)
    ensures ReadStrings(RolesWords(ss)).Some? ==> |ReadStrings(RolesWords(ss)).value| <= |ss|
  {
    hide Short, RoleWords, ReadStrings;
    if ss == [] {
      NoStrings();
    } else {
      ReadWrittenStrings(ss[1..]);
      assert ss == [ss[0]] + ss[1..];
      assert AllShort(ss) <==> |ss[0]| + 1 < 0x8000 && AllShort(ss[1..]);
      ReadFirst(ss[0], RolesWords(ss[1..]));
    }
  }

  lemma NoStrings()
    ensures ReadStrings([]) == Some([])
  {
  }

  /** What is read of a role, in front of anything: its string, nothing if its length has become 0, or an error. */
  lemma ReadFirst(s: string, rest: Words)
    requires CString(s)
    ensures var r := ReadStrings(RoleWords(s) + rest);
      if |s| + 1 < 0x8000 then
        r == if ReadStrings(rest).None? then None else Some([s] + ReadStrings(rest).value)
      else r == None || r == ReadStrings(rest)
  {
    hide Short;
    var n, w, t := Short(|s| + 1), RoleWords(s) + rest, Chars(s) + [0];
    if n == 0 {
      assert w[1..] == rest;
    } else if n > 0 {
      assert w[1..n + 1] == t[..n] && w[n] == t[n - 1] && w[n + 1..] == rest;
      if n == |s| + 1 {
        TextOfChars(s);
        assert t[..n] == t;
      } else {
        assert t[n - 1] == s[n - 1] as int && s[n - 1] in s;
      }
    }
  }

  /** The table after roles have been looked up one after the other. */
  function AddAll(roles: Roles, ss: seq<string>): Roles
    decreases |ss|
  {
    if ss == [] then roles else AddAll(AddRole(roles, ss[0]), ss[1..])
  }

  /** index_read_roles(): true if the data is consistent; the strings before an inconsistency are added. */
  method ReadRoles(data: Words, roles: Roles) returns (ok: bool, roles': Roles)
    requires RolesOk(roles)
    ensures RolesOk(roles') && roles <= roles' && (ok <==> ReadStrings(data).Some?)
    ensures ok ==> roles' == AddAll(roles, ReadStrings(data).value)
  {
    var w := data;
    roles' := roles;
    while w != []
      invariant RolesOk(roles') && roles <= roles'
      invariant ReadStrings(data).Some? <==> ReadStrings(w).Some?
      invariant ReadStrings(w).Some? ==> AddAll(roles, ReadStrings(data).value) == AddAll(roles', ReadStrings(w).value)
      decreases |w|
    {
      var len := w[0];
      if len == 0 {
        w := w[1..];
        continue;
      }
      if len < 0 || len > |w| - 1 {
        return false, roles';
      }
      if w[len] != 0 {
        return false, roles';
      }
      var s := Text(w[1..len + 1]);
      TextIsCString(w[1..len + 1]);
      var n;
      n, roles' := StrRole(roles', s, len);
      w := w[len + 1..];
    }
    return true, roles';
  }

  lemma {:induction false} AddAllKnown(roles: Roles, k: nat, n: nat)
    requires Distinct(roles) && k <= n <= |roles|
    ensures AddAll(roles[..k], roles[k..n]) == roles[..n]
    decreases n - k
  {
    if k < n {
      assert roles[k] == roles[k..n][0] && roles[k..n][1..] == roles[k + 1..n];
      assert roles[..k] + [roles[k]] == roles[..k + 1];
      assert roles[k] !in roles[..k];
      AddAllKnown(roles, k + 1, n);
    } else {
      assert roles[k..n] == [];
    }
  }

  lemma {:induction false} AddAllSkips(roles: Roles, ss: seq<string>, tt: seq<string>)
    requires forall s :: s in ss ==> s in roles
    ensures AddAll(roles, ss + tt) == AddAll(roles, tt)
  {
    if ss == [] {
      assert ss + tt == tt;
    } else {
      assert ss[0] in ss && (ss + tt)[1..] == ss[1..] + tt;
      forall s | s in ss[1..] ensures s in ss {
      }
      AddAllSkips(roles, ss[1..], tt);
    }
  }

  lemma AddWritten(roles: Roles, k: nat, n: nat)
    requires Distinct(roles) && k <= |roles| && n <= |roles|
    ensures AddAll(roles[..k], roles[..n]) == roles[..Max(k, n)]
  {
    if k <= n {
      assert roles[..n] == roles[..k] + roles[k..n];
      AddAllSkips(roles[..k], roles[..k], roles[k..n]);
      AddAllKnown(roles, k, n);
    } else {
      assert roles[..n] == roles[..n] + [];
      forall s | s in roles[..n] ensures s in roles[..k] {
        assert roles[..n] == roles[..k][..n];
      }
      AddAllSkips(roles[..k], roles[..n], []);
    }
  }

  /**
   * Reading the written roles into a table that has the same beginning gives the same numbers, if
   * and only if their lengths fit; it gives the whole table if and only if nothing was left
   * unwritten that is not there already.
   */
  lemma RolesRoundTrip(roles: Roles, k: nat)
    requires RolesOk(roles) && k <= |roles|
    ensures ReadStrings(RolesWords(Written(roles))) == Some(Written(roles)) <==> AllShort(Written(roles))
    ensures AddAll(roles[..k], Written(roles)) == roles[..Max(k, FirstIndex(roles, "n/a"))]
    ensures AddAll(roles[..k], Written(roles)) == roles <==> k == |roles| || "n/a" !in roles
  {
    hide AddAll, ReadStrings, RolesWords;
    var n := FirstIndex(roles, "n/a");
    forall s | s in Written(roles) ensures CString(s) {
      assert s in roles;
    }
    ReadWrittenStrings(Written(roles));
    AddWritten(roles, k, n);
    NotWritten(roles, n);
    var r := roles[..Max(k, n)];
    assert |r| == |roles| ==> r == roles;
  }

  lemma NotWritten(roles: Roles, n: nat)
    requires n == FirstIndex(roles, "n/a")
    ensures n == |roles| <==> "n/a" !in roles
  {
    assert n == |roles| ==> roles[..n] == roles;
    assert n < |roles| ==> roles[n] in roles;
  }

  // ----- objects -----

  const OSM_NODE: int := 1
  const OSM_WAY: int := 2
  const OSM_REL: int := 3

  /** A bstring_t: a pointer into the OSM data and a length. */
  datatype BString = BString(len: int, buf: int)

  datatype OTag = OTag(k: BString, v: BString)

  datatype Member = Member(kind: int, role: int, id: int)

  datatype Info = Info(vis: int, ver: int, cs: int, uid: int, tim: int)

  datatype Body = NodeBody(lat: int, lon: int) | WayBody(ref: seq<int>) | RelBody(mem: seq<Member>)

  datatype Object = Object(id: int, info: Info, otag: seq<OTag>, body: Body) {
    function Kind(): int {
      if body.NodeBody? then OSM_NODE else if body.WayBody? then OSM_WAY else OSM_REL
    }

    function Key(): (int, int) {
      (Kind(), id)
    }
  }

  /** Objects are kept apart in the tree by their kind and their id, and by nothing else. */
  lemma SameObject(o: Object, p: Object)
    ensures o.Key() == p.Key() <==>
      && o.id == p.id && (o.body.NodeBody? <==> p.body.NodeBody?) && (o.body.WayBody? <==> p.body.WayBody?)
  {
  }

  /** baseloc(): a pointer relative to the beginning of the data. */
  function BaseLoc(base: int, p: int): int {
    p - base
  }

  /** reloc(): and back. */
  function Reloc(base: int, p: int): int {
    p + base
  }

  function MovedString(s: BString, d: int): BString {
    s.(buf := s.buf + d)
  }

  /** The tags when the data is at another place. */
  function MovedTags(ts: seq<OTag>, d: int): seq<OTag> {
    if ts == [] then [] else [OTag(MovedString(ts[0].k, d), MovedString(ts[0].v, d))] + MovedTags(ts[1..], d)
  }

  function Moved(o: Object, d: int): Object {
    o.(otag := MovedTags(o.otag, d))
  }

  // ----- the words of an object -----

  function TagsWords(ts: seq<OTag>, base: int): (w: Words)
    ensures |w| == 4 * |ts|
  {
    if ts == [] then []
    else
      var t := ts[0];
      [t.k.len, BaseLoc(base, t.k.buf), t.v.len, BaseLoc(base, t.v.buf)] + TagsWords(ts[1..], base)
  }

  function MembersWords(ms: seq<Member>): (w: Words)
    ensures |w| == 3 * |ms|
  {
    if ms == [] then [] else [ms[0].kind, ms[0].role, ms[0].id] + MembersWords(ms[1..])
  }

  /** The structure of an object with its pointers cleared. */
  function StructWords(o: Object): (w: Words)
    ensures |w| == 11
  {
    [o.Kind(), o.info.vis, |o.otag|, o.info.ver, o.info.cs, o.info.uid, o.id, o.info.tim, 0]
    + match o.body
      case NodeBody(lat, lon) => [lat, lon]
      case WayBody(ref) => [|ref|, 0]
      case RelBody(mem) => [|mem|, 0]
  }

  function TailWords(o: Object): Words {
    match o.body
    case NodeBody(_, _) => []
    case WayBody(ref) => ref
    case RelBody(mem) => MembersWords(mem)
  }

  function ObjWords(o: Object, base: int): Words {
    StructWords(o) + TagsWords(o.otag, base) + TailWords(o)
  }

  function ObjsWords(os: seq<Object>, base: int): Words {
    if os == [] then [] else ObjWords(os[0], base) + ObjsWords(os[1..], base)
  }

  lemma {:induction false} TagsWordsAppend(ts: seq<OTag>, t: OTag, base: int)
    ensures TagsWords(ts + [t], base) == TagsWords(ts, base) + TagsWords([t], base)
  {
    if ts == [] {
      assert TagsWords([], base) + TagsWords([t], base) == TagsWords([t], base);
    } else {
      TagsWordsAppend(ts[1..], t, base);
      assert (ts + [t])[1..] == ts[1..] + [t];
    }
  }

  lemma {:induction false} ObjsWordsAppend(os: seq<Object>, o: Object, base: int)
    ensures ObjsWords(os + [o], base) == ObjsWords(os, base) + ObjWords(o, base)
  {
    hide ObjWords;
    if os == [] {
      assert ObjsWords([o], base) == ObjWords(o, base) + ObjsWords([], base);
    } else {
      ObjsWordsAppend(os[1..], o, base);
      assert (os + [o])[1..] == os[1..] + [o];
    }
  }

  /** index_write_obj(). */
  method WriteObj(o: Object, base: int) returns (w: Words)
    ensures w == ObjWords(o, base)
  {
    w := StructWords(o);
    for i := 0 to |o.otag|
      invariant w == StructWords(o) + TagsWords(o.otag[..i], base)
    {
      var t := o.otag[i];
      t := t.(k := t.k.(buf := BaseLoc(base, t.k.buf)));
      t := t.(v := t.v.(buf := BaseLoc(base, t.v.buf)));
      w := w + [t.k.len, t.k.buf, t.v.len, t.v.buf];
      TagsWordsAppend(o.otag[..i], o.otag[i], base);
      assert o.otag[..i + 1] == o.otag[..i] + [o.otag[i]];
      assert TagsWords([o.otag[i]], base) == [t.k.len, t.k.buf, t.v.len, t.v.buf];
    }
    assert o.otag[..|o.otag|] == o.otag;
    match o.body
    case NodeBody(_, _) =>
    case WayBody(ref) => w := w + ref;
    case RelBody(mem) => w := w + MembersWords(mem);
  }

  /** index_write_objects(): the data of the chunk for the objects in the order of the traversals. */
  method WriteObjects(os: seq<Object>, base: int) returns (data: Words)
    ensures data == ObjsWords(os, base)
  {
    data := [];
    for i := 0 to |os|
      invariant data == ObjsWords(os[..i], base)
    {
      var w := WriteObj(os[i], base);
      data := data + w;
      ObjsWordsAppend(os[..i], os[i], base);
      assert os[..i + 1] == os[..i] + [os[i]];
    }
    assert os[..|os|] == os;
  }

  // ----- reading objects -----

  /** n tags, moved to the new place of the data. */
  function TagsOf(w: Words, n: nat, base: int): (ts: seq<OTag>)
    requires 4 * n <= |w|
    ensures |ts| == n
    decreases n
  {
    if n == 0 then []
    else [OTag(BString(w[0], Reloc(base, w[1])), BString(w[2], Reloc(base, w[3])))] + TagsOf(w[4..], n - 1, base)
  }

  function MembersOf(w: Words, n: nat): (ms: seq<Member>)
    requires 3 * n <= |w|
    ensures |ms| == n
    decreases n
  {
    if n == 0 then [] else [Member(w[0], w[1], w[2])] + MembersOf(w[3..], n - 1)
  }

  lemma {:induction false} TagsRoundTrip(ts: seq<OTag>, base: int, base': int, rest: Words)
    ensures TagsOf(TagsWords(ts, base) + rest, |ts|, base') == MovedTags(ts, base' - base)
  {
    if ts != [] {
      var w := TagsWords(ts, base) + rest;
      assert w[4..] == TagsWords(ts[1..], base) + rest;
      TagsRoundTrip(ts[1..], base, base', rest);
    }
  }

  lemma {:induction false} MembersRoundTrip(ms: seq<Member>, rest: Words)
    ensures MembersOf(MembersWords(ms) + rest, |ms|) == ms
  {
    if ms != [] {
      var w := MembersWords(ms) + rest;
      assert w[3..] == MembersWords(ms[1..]) + rest;
      MembersRoundTrip(ms[1..], rest);
      assert ms == [ms[0]] + ms[1..];
    }
  }

  /** The object at the beginning of w, and the words behind it. */
  function ReadObj(w: Words, base: int): (r: Option<(Object, Words)>)
    ensures r.Some? ==> |r.value.1| < |w|
  {
    if |w| < 9 || !(1 <= w[0] <= 3) || |w| < 11 then None
    else
      var t := w[11..];
      if w[8] != 0 || w[2] < 0 || |t| < 4 * w[2] then None
      else
        var u := t[4 * w[2]..];
        var info := Info(w[1], w[3], w[4], w[5], w[7]);
        var otag := TagsOf(t, w[2], base);
        if w[0] == OSM_NODE then Some((Object(w[6], info, otag, NodeBody(w[9], w[10])), u))
        else if w[10] != 0 || w[9] < 0 then None
        else if w[0] == OSM_WAY then
          if |u| < w[9] then None else Some((Object(w[6], info, otag, WayBody(u[..w[9]])), u[w[9]..]))
        else
          if |u| < 3 * w[9] then None else Some((Object(w[6], info, otag, RelBody(MembersOf(u, w[9]))), u[3 * w[9]..]))
  }

  /** All objects of a chunk. */
  function ReadAll(w: Words, base: int): Option<seq<Object>>
    decreases |w|
  {
    if w == [] then Some([])
    else
      match ReadObj(w, base)
      case None => None
      case Some(r) =>
        match ReadAll(r.1, base)
        case None => None
        case Some(os) => Some([r.0] + os)
  }

  /** A written object is read as the same object, with its tags at their new place. */
  lemma ObjRoundTrip(o: Object, base: int, base': int, rest: Words)
    ensures ReadObj(ObjWords(o, base) + rest, base') == Some((Moved(o, base' - base), rest))
  {
    hide TagsWords, MembersWords, TagsOf, MembersOf, MovedTags;
    var w := ObjWords(o, base) + rest;
    var t := w[11..];
    assert t == TagsWords(o.otag, base) + (TailWords(o) + rest);
    TagsRoundTrip(o.otag, base, base', TailWords(o) + rest);
    var u := t[4 * |o.otag|..];
    assert u == TailWords(o) + rest;
    assert forall i :: 0 <= i < 11 ==> w[i] == StructWords(o)[i];
    match o.body
    case NodeBody(_, _) =>
      assert u == rest;
    case WayBody(ref) =>
      assert u[..|ref|] == ref && u[|ref|..] == rest;
    case RelBody(mem) =>
      MembersRoundTrip(mem, rest);
      assert u[3 * |mem|..] == rest;
  }

  function AllMoved(os: seq<Object>, d: int): (r: seq<Object>)
    ensures |r| == |os| && forall i :: 0 <= i < |os| ==> r[i] == Moved(os[i], d)
  {
    if os == [] then [] else [Moved(os[0], d)] + AllMoved(os[1..], d)
  }

  lemma {:induction false} ObjsRoundTrip(os: seq<Object>, base: int, base': int)
    ensures ReadAll(ObjsWords(os, base), base') == Some(AllMoved(os, base' - base))
  {
    hide ObjWords, ReadObj, Moved;
    if os != [] {
      ObjRoundTrip(os[0], base, base', ObjsWords(os[1..], base));
      ObjsRoundTrip(os[1..], base, base');
    }
  }

  // ----- the tree -----

  type Tree = map<(int, int), Object>

  /** The tree after the objects have been put into it, a later one in the place of an earlier one. */
  function PutAll(tree: Tree, os: seq<Object>): Tree
    decreases |os|
  {
    if os == [] then tree else PutAll(tree[os[0].Key() := os[0]], os[1..])
  }

  /**
   * alloc_cpy_upd(): a copy of the next n words for a pointer that must be NULL still, and the
   * remaining words. A negative number of words is refused here.
   */
  method AllocCpyUpd(w: Words, n: int, ptr: int) returns (r: Option<(Words, Words)>)
    ensures r == if |w| < n || ptr != 0 || n < 0 then None else Some((w[..n], w[n..]))
  {
    if |w| < n {
      return None;
    }
    if ptr != 0 || n < 0 {
      return None;
    }
    return Some((w[..n], w[n..]));
  }

  /** The loop that relocates the tag pointers. */
  method RelocTags(w: Words, n: nat, base: int) returns (ts: seq<OTag>)
    requires |w| == 4 * n
    ensures ts == TagsOf(w, n, base)
  {
    ts := [];
    for i := 0 to n
      invariant |ts| == i && ts + TagsOf(w[4 * i..], n - i, base) == TagsOf(w, n, base)
    {
      var k, v := BString(w[4 * i], w[4 * i + 1]), BString(w[4 * i + 2], w[4 * i + 3]);
      ghost var next := OTag(BString(k.len, Reloc(base, k.buf)), BString(v.len, Reloc(base, v.buf)));
      assert w[4 * i..][4..] == w[4 * (i + 1)..];
      assert ts + ([next] + TagsOf(w[4 * (i + 1)..], n - i - 1, base)) ==
        ts + [next] + TagsOf(w[4 * (i + 1)..], n - i - 1, base);
      k := k.(buf := Reloc(base, k.buf));
      v := v.(buf := Reloc(base, v.buf));
      ts := ts + [OTag(k, v)];
    }
  }

  lemma {:induction false} TagsOfPrefix(w: Words, n: nat, base: int)
    requires 4 * n <= |w|
    ensures TagsOf(w[..4 * n], n, base) == TagsOf(w, n, base)
    decreases n
  {
    if n > 0 {
      assert w[..4 * n][4..] == w[4..][..4 * (n - 1)];
      TagsOfPrefix(w[4..], n - 1, base);
    }
  }

  lemma {:induction false} MembersOfPrefix(w: Words, n: nat)
    requires 3 * n <= |w|
    ensures MembersOf(w[..3 * n], n) == MembersOf(w, n)
    decreases n
  {
    if n > 0 {
      assert w[..3 * n][3..] == w[3..][..3 * (n - 1)];
      MembersOfPrefix(w[3..], n - 1);
    }
  }

  /** One round of the loop of index_read_objs(): the object at the beginning of w. */
  method ReadOne(w: Words, base: int) returns (r: Option<(Object, Words)>)
    ensures r == ReadObj(w, base)
  {
    if |w| < 9 {
      return None;
    }
    if w[0] != OSM_NODE && w[0] != OSM_WAY && w[0] != OSM_REL {
      return None;
    }
    var o := AllocCpyUpd(w, 11, 0);
    if o == None {
      return None;
    }
    var st, rest := o.value.0, o.value.1;
    var tags := AllocCpyUpd(rest, 4 * st[2], st[8]);
    if tags == None {
      return None;
    }
    var otag := RelocTags(tags.value.0, st[2], base);
    TagsOfPrefix(rest, st[2], base);
    var info := Info(st[1], st[3], st[4], st[5], st[7]);
    rest := tags.value.1;
    if st[0] == OSM_WAY {
      var ref := AllocCpyUpd(rest, st[9], st[10]);
      if ref == None {
        return None;
      }
      return Some((Object(st[6], info, otag, WayBody(ref.value.0)), ref.value.1));
    } else if st[0] == OSM_REL {
      var mem := AllocCpyUpd(rest, 3 * st[9], st[10]);
      if mem == None {
        return None;
      }
      MembersOfPrefix(rest, st[9]);
      return Some((Object(st[6], info, otag, RelBody(MembersOf(mem.value.0, st[9]))), mem.value.1));
    }
    return Some((Object(st[6], info, otag, NodeBody(st[9], st[10])), rest));
  }

  /** There is an entry for object i when it is put: from before, or from an object in front of it. */
  predicate Present(tree: Tree, os: seq<Object>, i: nat)
    requires i < |os|
  {
    os[i].Key() in tree || exists j :: 0 <= j < i && os[j].Key() == os[i].Key()
  }

  /** Object i is refused: it has an entry, and so had the object in front of it; ctrl counts for the first one. */
  predicate RefusedAt(tree: Tree, os: seq<Object>, ctrl: bool, i: nat)
    requires i < |os|
  {
    Present(tree, os, i) && if i == 0 then ctrl else Present(tree, os, i - 1)
  }

  predicate Refused(tree: Tree, os: seq<Object>, ctrl: bool) {
    exists i :: 0 <= i < |os| && RefusedAt(tree, os, ctrl, i)
  }

  /** put_object0_ctrl() for one object after the other: ctrl is not NULL if the last one had an entry. */
  function PutChecked(tree: Tree, os: seq<Object>, ctrl: bool): Option<Tree>
    decreases |os|
  {
    if os == [] then Some(tree)
    else if os[0].Key() in tree && ctrl then None
    else PutChecked(tree[os[0].Key() := os[0]], os[1..], os[0].Key() in tree)
  }

  lemma PresentLater(tree: Tree, os: seq<Object>, i: nat)
    requires i + 1 < |os|
    ensures Present(tree, os, i + 1) <==> Present(tree[os[0].Key() := os[0]], os[1..], i)
  {
    var later := os[1..];
    if j :| 0 <= j < i + 1 && os[j].Key() == os[i + 1].Key() {
      assert j > 0 ==> later[j - 1] == os[j];
    }
    if j :| 0 <= j < i && later[j].Key() == later[i].Key() {
      assert os[j + 1] == later[j];
    }
  }

  /** Which objects are refused is decided by the entries at the time of two puts in a row. */
  lemma {:induction false} PutCheckedIs(tree: Tree, os: seq<Object>, ctrl: bool)
    ensures PutChecked(tree, os, ctrl) == if Refused(tree, os, ctrl) then None else Some(PutAll(tree, os))
    decreases |os|
  {
    hide Object.Key;
    if os == [] {
    } else if os[0].Key() in tree && ctrl {
      assert RefusedAt(tree, os, ctrl, 0);
    } else {
      var tree1, had := tree[os[0].Key() := os[0]], Present(tree, os, 0);
      PutCheckedIs(tree1, os[1..], had);
      forall i: nat | i + 1 < |os|
        ensures RefusedAt(tree, os, ctrl, i + 1) <==> RefusedAt(tree1, os[1..], had, i)
      {
        PresentLater(tree, os, i);
        if i > 0 {
          PresentLater(tree, os, i - 1);
        }
      }
      if i :| 0 <= i < |os| && RefusedAt(tree, os, ctrl, i) {
        assert i > 0 && RefusedAt(tree1, os[1..], had, i - 1);
      }
      if i :| 0 <= i < |os[1..]| && RefusedAt(tree1, os[1..], had, i) {
        assert RefusedAt(tree, os, ctrl, i + 1);
      }
    }
  }

  /** Different objects that are not in the tree yet are all accepted. */
  lemma NoneRefused(tree: Tree, os: seq<Object>, ctrl: bool)
    requires forall i, j :: 0 <= i < j < |os| ==> os[i].Key() != os[j].Key()
    requires forall o :: o in os ==> o.Key() !in tree
    ensures !Refused(tree, os, ctrl)
  {
    forall i | 0 <= i < |os| ensures !Present(tree, os, i) {
      assert os[i] in os;
    }
  }

  /** Objects that come twice are overwritten as long as there is a new one in front of each of them. */
  lemma TwiceAndAgain(a: Object, b: Object)
    requires a.Key() != b.Key()
    ensures !Refused(map[], [a, b, a], true)
    ensures Refused(map[], [a, b, a, b], true)
  {
    assert !Present(map[], [a, b, a], 0) && !Present(map[], [a, b, a], 1);
    var os := [a, b, a, b];
    assert os[0].Key() == os[2].Key() && os[1].Key() == os[3].Key();
    assert RefusedAt(map[], os, true, 3);
  }

  /**
   * index_read_objs(): ctrl says that the pointer variable passed to put_object0_ctrl() is not NULL.
   * It is not at the beginning, and later it is the entry that the last object has overwritten.
   */
  method ReadObjs(data: Words, tree: Tree, base: int) returns (r: int, tree': Tree)
    ensures r == 0 || r == -1
    ensures r == 0 <==> ReadAll(data, base).Some? && !Refused(tree, ReadAll(data, base).value, true)
    ensures r == 0 ==> tree' == PutAll(tree, ReadAll(data, base).value)
  {
    hide ReadObj, Refused, PutAll, Object.Key;
    var w := data;
    tree' := tree;
    var ctrl := true;
    if ReadAll(data, base).Some? {
      PutCheckedIs(tree, ReadAll(data, base).value, true);
    }
    while w != []
      invariant ReadAll(data, base).Some? <==> ReadAll(w, base).Some?
      invariant ReadAll(data, base).Some? ==>
        PutChecked(tree, ReadAll(data, base).value, true) == PutChecked(tree', ReadAll(w, base).value, ctrl)
      decreases |w|
    {
      var o := ReadOne(w, base);
      if o == None {
        return -1, tree';
      }
      var key := o.value.0.Key();
      var existed := key in tree';
      if existed && ctrl {
        return -1, tree';
      }
      ctrl := existed;
      tree' := tree'[key := o.value.0];
      w := o.value.1;
    }
    return 0, tree';
  }

  /** The objects of a tree in some order. */
  ghost predicate Lists(os: seq<Object>, tree: Tree) {
    && (forall i, j :: 0 <= i < j < |os| ==> os[i].Key() != os[j].Key())
    && (forall o :: o in os ==> o.Key() in tree && tree[o.Key()] == o)
    && (forall k :: k in tree ==> tree[k] in os)
  }

  ghost function MovedTree(tree: Tree, d: int): Tree {
    map k | k in tree :: Moved(tree[k], d)
  }

  lemma {:induction false} PutAllGives(tree: Tree, os: seq<Object>, k: (int, int))
    requires forall i, j :: 0 <= i < j < |os| ==> os[i].Key() != os[j].Key()
    ensures k in PutAll(tree, os) <==> k in tree || exists i :: 0 <= i < |os| && os[i].Key() == k
    ensures forall i :: 0 <= i < |os| && os[i].Key() == k ==> PutAll(tree, os)[k] == os[i]
    ensures k in tree && (forall i :: 0 <= i < |os| ==> os[i].Key() != k) ==> PutAll(tree, os)[k] == tree[k]
    decreases |os|
  {
    if os != [] {
      PutAllGives(tree[os[0].Key() := os[0]], os[1..], k);
      assert forall i :: 0 < i < |os| ==> os[i] == os[1..][i - 1];
    }
  }

  lemma MovedKey(o: Object, d: int)
    ensures Moved(o, d).Key() == o.Key()
  {
  }

  lemma PutMoved(os: seq<Object>, tree: Tree, d: int)
    requires Lists(os, tree) && forall k :: k in tree ==> tree[k].Key() == k
    ensures PutAll(map[], AllMoved(os, d)) == MovedTree(tree, d)
    ensures !Refused(map[], AllMoved(os, d), true)
  {
    hide Moved, PutAll, AllMoved, Object.Key, Refused;
    var ms := AllMoved(os, d);
    forall i | 0 <= i < |os| ensures ms[i].Key() == os[i].Key() && ms[i] == Moved(os[i], d) {
      MovedKey(os[i], d);
    }
    NoneRefused(map[], ms, true);
    forall k ensures k in PutAll(map[], ms) <==> k in tree {
      PutAllGives(map[], ms, k);
      if k in tree {
        assert tree[k] in os;
        var i :| 0 <= i < |os| && os[i] == tree[k];
        assert ms[i].Key() == k;
      } else {
        assert forall i :: 0 <= i < |os| ==> os[i] in os;
      }
    }
    forall k | k in tree ensures PutAll(map[], ms)[k] == Moved(tree[k], d) {
      PutAllGives(map[], ms, k);
      assert tree[k] in os;
      var i :| 0 <= i < |os| && os[i] == tree[k];
      assert ms[i].Key() == k;
    }
  }

  /** What is written for a tree and read into an empty one is the same tree, with all tags at their new place. */
  method WriteAndRead(os: seq<Object>, ghost tree: Tree, base: int, base': int) returns (r: int, tree': Tree)
    requires Lists(os, tree) && forall k :: k in tree ==> tree[k].Key() == k
    ensures r == 0 && tree' == MovedTree(tree, base' - base)
  {
    hide *;
    var data := WriteObjects(os, base);
    ObjsRoundTrip(os, base, base');
    PutMoved(os, tree, base' - base);
    r, tree' := ReadObjs(data, map[], base');
  }

  // ----- chunks -----

  const VH_ROLE: int := 0x524f4c45
  const VH_DSTS: int := 0x44535453
  const VH_OBJS: int := 0x4f424a53

  /** index_varhdr_t (type, flags and length) and the data. */
  function Chunk(kind: int, data: Words): Words {
    [kind, 0, |data|] + data
  }

  /** How many bytes the fields take: no field is empty. */
  type Layout = Words -> nat

  ghost predicate IsLayout(bytes: Layout) {
    bytes([]) == 0 && forall w: Words, x: int :: bytes(w) < bytes(w + [x])
  }

  /** What an int has of a length. */
  function Int(n: nat): (r: int)
    ensures r <= n && r < 0x8000_0000 && (r == n <==> n < 0x8000_0000)
    ensures 0x8000_0000 <= n < 0x1_0000_0000 ==> r < 0
  {
    (n + 0x8000_0000) % 0x1_0000_0000 - 0x8000_0000
  }

  /** The fields that take n bytes; None if the last one is not complete. */
  function Cut(bytes: Layout, w: Words, n: nat): (r: Option<Words>)
    ensures r.Some? ==> r.value <= w && bytes(r.value) == n
    decreases |w|
  {
    if bytes(w) == n then Some(w) else if w == [] then None else Cut(bytes, w[..|w| - 1], n)
  }

  /** What index_read_roles() and index_read_objs() see of a chunk: their parameter for its length is an int. */
  function Seen(bytes: Layout, data: Words): Option<Words> {
    if Int(bytes(data)) <= 0 then Some([]) else Cut(bytes, data, Int(bytes(data)))
  }

  lemma SeenIs(bytes: Layout, data: Words)
    requires IsLayout(bytes)
    ensures bytes(data) < 0x8000_0000 ==> Seen(bytes, data) == Some(data)
    ensures bytes(data) >= 0x8000_0000 ==> data != [] && (Seen(bytes, data).Some? ==> Seen(bytes, data).value < data)
    ensures 0x8000_0000 <= bytes(data) < 0x1_0000_0000 ==> Seen(bytes, data) == Some([])
  {
    hide Int;
    if data != [] {
      var w, x := data[..|data| - 1], data[|data| - 1];
      assert data == w + [x];
      assert bytes(w) < bytes(w + [x]);
      assert bytes(data) > 0;
    }
    assert Seen(bytes, data).Some? ==> Seen(bytes, data).value <= data;
    assert Seen(bytes, data) == Some(data) ==> data == [] || bytes(data) < 0x8000_0000;
  }

  /** What is in memory after the index has been read: the statistics are a structure that is copied. */
  datatype Memory = Memory(roles: Roles, ds: Words, tree: Tree)

  function ReadChunk(kind: int, data: Words, dsLen: nat, base: int, bytes: Layout, m: Memory): Option<Memory> {
    if kind == VH_ROLE then
      match Seen(bytes, data)
      case None => None
      case Some(w) =>
        if ReadStrings(w).None? then None else Some(m.(roles := AddAll(m.roles, ReadStrings(w).value)))
    else if kind == VH_DSTS then
      if |data| != dsLen then None else Some(m.(ds := data))
    else if kind == VH_OBJS then
      match Seen(bytes, data)
      case None => None
      case Some(w) =>
        var os := ReadAll(w, base);
        if os.None? || Refused(m.tree, os.value, true) then None else Some(m.(tree := PutAll(m.tree, os.value)))
    else Some(m)
  }

  /** A chunk that reaches beyond the end of the file is an error. */
  function ReadChunks(w: Words, dsLen: nat, base: int, bytes: Layout, m: Memory): Option<Memory>
    decreases |w|
  {
    if |w| <= 3 then Some(m)
    else if w[2] < 0 || |w| - 3 < w[2] then None
    else
      match ReadChunk(w[0], w[3..3 + w[2]], dsLen, base, bytes, m)
      case None => None
      case Some(m') => ReadChunks(w[3 + w[2]..], dsLen, base, bytes, m')
  }

  function IndexWords(roles: Roles, ds: Words, os: seq<Object>, base: int): Words {
    Chunk(VH_ROLE, RolesWords(Written(roles))) + Chunk(VH_DSTS, ds) + Chunk(VH_OBJS, ObjsWords(os, base))
  }

  /** The chunks of index_write(): os are the objects of the tree in the order of the traversals. */
  method IndexWrite(roles: Roles, ds: Words, os: seq<Object>, base: int) returns (file: Option<Words>)
    ensures file.Some? <==> Writable(Written(roles))
    ensures file.Some? ==> file.value == IndexWords(roles, ds, os, base)
  {
    hide Writable;
    var r := WriteRoles(roles);
    if r == None {
      return None;
    }
    var o := WriteObjects(os, base);
    return Some(Chunk(VH_ROLE, r.value) + Chunk(VH_DSTS, ds) + Chunk(VH_OBJS, o));
  }

  /** The loop over the chunks in index_read(). */
  method IndexRead(file: Words, dsLen: nat, base: int, bytes: Layout, m: Memory) returns (ok: bool, m': Memory)
    requires RolesOk(m.roles)
    ensures ok <==> ReadChunks(file, dsLen, base, bytes, m).Some?
    ensures ok ==> ReadChunks(file, dsLen, base, bytes, m) == Some(m')
  {
    hide ReadStrings, AddAll, ReadAll, PutAll, RolesOk, Seen, Refused;
    var w := file;
    m' := m;
    while |w| > 3
      invariant RolesOk(m'.roles)
      invariant ReadChunks(file, dsLen, base, bytes, m) == ReadChunks(w, dsLen, base, bytes, m')
      decreases |w|
    {
      var kind, len := w[0], w[2];
      if |w| - 3 < len || len < 0 {
        return false, m';
      }
      var data := w[3..3 + len];
      var fine;
      fine, m' := IndexReadChunk(kind, data, dsLen, base, bytes, m');
      if !fine {
        return false, m';
      }
      w := w[3 + len..];
    }
    return true, m';
  }

  /** One chunk of the file. */
  method IndexReadChunk(kind: int, data: Words, dsLen: nat, base: int, bytes: Layout, m: Memory)
    returns (ok: bool, m': Memory)
    requires RolesOk(m.roles)
    ensures ok <==> ReadChunk(kind, data, dsLen, base, bytes, m).Some?
    ensures ok ==> ReadChunk(kind, data, dsLen, base, bytes, m) == Some(m') && RolesOk(m'.roles)
  {
    hide ReadStrings, AddAll, ReadAll, PutAll, RolesOk, Seen, Refused;
    m' := m;
    if kind == VH_DSTS {
      if |data| != dsLen {
        return false, m';
      }
      return true, m'.(ds := data);
    }
    var seen := Seen(bytes, data);
    if kind == VH_ROLE {
      if seen == None {
        return false, m';
      }
      var fine, roles := ReadRoles(seen.value, m'.roles);
      return fine, m'.(roles := roles);
    } else if kind == VH_OBJS {
      if seen == None {
        return false, m';
      }
      var r, tree := ReadObjs(seen.value, m'.tree, base);
      return r != -1, m'.(tree := tree);
    }
    return true, m';
  }

  lemma OneChunk(kind: int, data: Words, rest: Words, dsLen: nat, base: int, bytes: Layout, m: Memory)
    requires data != [] || rest != []
    ensures ReadChunks(Chunk(kind, data) + rest, dsLen, base, bytes, m) ==
      match ReadChunk(kind, data, dsLen, base, bytes, m)
      case None => None
      case Some(m') => ReadChunks(rest, dsLen, base, bytes, m')
  {
    hide ReadChunk;
    var w := Chunk(kind, data) + rest;
    assert w[3..3 + |data|] == data && w[3 + |data|..] == rest;
  }

  /**
   * Reading what has been written into a table with the beginning of the roles and an empty tree
   * gives the roles, the statistics and the tree, with its tags in the new data.
   */
  lemma IndexRoundTrip(roles: Roles, k: nat, ds: Words, os: seq<Object>, tree: Tree, base: int, base': int,
      bytes: Layout, ds0: Words)
    requires RolesOk(roles) && k <= |roles| && (k == |roles| || "n/a" !in roles)
    requires Lists(os, tree) && forall k :: k in tree ==> tree[k].Key() == k
    requires Small(roles, os, base, bytes)
    ensures ReadChunks(IndexWords(roles, ds, os, base), |ds|, base', bytes, Memory(roles[..k], ds0, map[]))
      == Some(Memory(roles, ds, MovedTree(tree, base' - base)))
  {
    hide ReadStrings, AddAll, ReadAll, PutAll, RolesOk, RolesWords, ObjsWords, Lists, MovedTree, Object.Key, AllMoved;
    hide Written, ReadChunks, Chunk, Refused, Seen, IsLayout, AllShort;
    var a, b, c := RolesWords(Written(roles)), Chunk(VH_DSTS, ds), Chunk(VH_OBJS, ObjsWords(os, base));
    ChunkNotEmpty(VH_DSTS, ds);
    ChunkNotEmpty(VH_OBJS, ObjsWords(os, base));
    SeenIs(bytes, a);
    SeenIs(bytes, ObjsWords(os, base));
    RolesRoundTrip(roles, k);
    ObjsRoundTrip(os, base, base');
    PutMoved(os, tree, base' - base);
    assert Chunk(VH_ROLE, a) + b + c == Chunk(VH_ROLE, a) + (b + c);
    OneChunk(VH_ROLE, a, b + c, |ds|, base', bytes, Memory(roles[..k], ds0, map[]));
    OneChunk(VH_DSTS, ds, c, |ds|, base', bytes, Memory(roles, ds0, map[]));
    LastChunk(ObjsWords(os, base), |ds|, base', bytes, Memory(roles, ds, map[]));
  }

  /** The lengths of the roles fit into a short, those of the chunks into an int. */
  ghost predicate Small(roles: Roles, os: seq<Object>, base: int, bytes: Layout) {
    && IsLayout(bytes) && AllShort(Written(roles))
    && bytes(RolesWords(Written(roles))) < 0x8000_0000 && bytes(ObjsWords(os, base)) < 0x8000_0000
  }

  /** The objects of a written chunk get into an empty tree if and only if its length fits into an int. */
  lemma ObjectsReadIff(os: seq<Object>, tree: Tree, base: int, base': int, dsLen: nat, bytes: Layout, m: Memory)
    requires Lists(os, tree) && (forall k :: k in tree ==> tree[k].Key() == k) && m.tree == map[] && IsLayout(bytes)
    ensures bytes(ObjsWords(os, base)) < 0x8000_0000 <==>
      ReadChunk(VH_OBJS, ObjsWords(os, base), dsLen, base', bytes, m) == Some(m.(tree := MovedTree(tree, base' - base)))
  {
    hide ReadAll, PutAll, ObjsWords, Lists, MovedTree, Object.Key, AllMoved, Refused, Seen, IsLayout;
    var data := ObjsWords(os, base);
    SeenIs(bytes, data);
    ObjsRoundTrip(os, base, base');
    PutMoved(os, tree, base' - base);
    if bytes(data) >= 0x8000_0000 && Seen(bytes, data).Some? && ReadAll(Seen(bytes, data).value, base').Some? {
      PartIsLess(os, tree, base, base', Seen(bytes, data).value);
    }
  }

  /** Between 2 and 4 GB nothing at all is read, and there is no error. */
  lemma LargeChunkLost(data: Words, dsLen: nat, base: int, bytes: Layout, m: Memory)
    requires IsLayout(bytes) && 0x8000_0000 <= bytes(data) < 0x1_0000_0000
    ensures ReadChunk(VH_OBJS, data, dsLen, base, bytes, m) == Some(m)
  {
    hide IsLayout, Seen;
    SeenIs(bytes, data);
    assert ReadAll([], base) == Some([]);
  }

  /** Less of the data gives less objects. */
  lemma PartIsLess(os: seq<Object>, tree: Tree, base: int, base': int, p: Words)
    requires Lists(os, tree) && (forall k :: k in tree ==> tree[k].Key() == k)
    requires p < ObjsWords(os, base) && ReadAll(p, base').Some?
    ensures PutAll(map[], ReadAll(p, base').value) != MovedTree(tree, base' - base)
  {
    hide ReadAll, PutAll, ObjsWords, Object.Key, AllMoved, Moved;
    var data := ObjsWords(os, base);
    ObjsRoundTrip(os, base, base');
    var ms, part := AllMoved(os, base' - base), ReadAll(p, base').value;
    assert data == p + data[|p|..];
    ReadAllPart(p, data[|p|..], base');
    var n := |part|;
    forall i | 0 <= i < |os| ensures ms[i].Key() == os[i].Key() {
      MovedKey(os[i], base' - base);
    }
    var key := os[n].Key();
    assert os[n] in os && key in tree;
    assert forall i :: 0 <= i < n ==> part[i] == ms[i];
    PutAllGives(map[], part, key);
  }

  lemma {:induction false} ReadAllPart(p: Words, rest: Words, base: int)
    requires rest != [] && ReadAll(p, base).Some? && ReadAll(p + rest, base).Some?
    ensures ReadAll(p, base).value < ReadAll(p + rest, base).value
    decreases |p|
  {
    hide ReadObj;
    if p == [] {
      assert p + rest == rest;
    } else {
      ReadObjPart(p, rest, base);
      ReadAllPart(ReadObj(p, base).value.1, rest, base);
    }
  }

  /** What follows an object does not matter. */
  lemma ReadObjPart(p: Words, rest: Words, base: int)
    requires ReadObj(p, base).Some?
    ensures var r := ReadObj(p, base).value; ReadObj(p + rest, base) == Some((r.0, r.1 + rest))
  {
    hide TagsOf, MembersOf;
    var w := p + rest;
    var n := p[2];
    assert w[11..] == p[11..] + rest;
    TagsOfPrefix(p[11..], n, base);
    TagsOfPrefix(w[11..], n, base);
    assert w[11..][..4 * n] == p[11..][..4 * n];
    var u, v := p[11..][4 * n..], w[11..][4 * n..];
    assert v == u + rest;
    if p[0] == OSM_WAY {
      assert v[..w[9]] == u[..w[9]] && v[w[9]..] == u[w[9]..] + rest;
    } else if p[0] == OSM_REL {
      MembersOfPrefix(u, w[9]);
      MembersOfPrefix(v, w[9]);
      assert v[..3 * w[9]] == u[..3 * w[9]] && v[3 * w[9]..] == u[3 * w[9]..] + rest;
    }
  }

  /** The index of index_write() is read by index_read() as what it was written from. */
  method WriteAndReadIndex(roles: Roles, k: nat, ds: Words, os: seq<Object>, ghost tree: Tree, base: int, base': int,
      bytes: Layout, ds0: Words)
    returns (ok: bool, m: Memory)
    requires RolesOk(roles) && k <= |roles| && (k == |roles| || "n/a" !in roles)
    requires Lists(os, tree) && forall k :: k in tree ==> tree[k].Key() == k
    requires Small(roles, os, base, bytes)
    ensures ok && m == Memory(roles, ds, MovedTree(tree, base' - base))
  {
    hide *;
    PartOfRoles(roles, k);
    SmallIsWritable(roles, os, base, bytes);
    IndexRoundTrip(roles, k, ds, os, tree, base, base', bytes, ds0);
    m := Memory(roles[..k], ds0, map[]);
    var file := IndexWrite(roles, ds, os, base);
    if file == None {
      return false, m;
    }
    ok, m := IndexRead(file.value, |ds|, base', bytes, m);
  }

  lemma SmallIsWritable(roles: Roles, os: seq<Object>, base: int, bytes: Layout)
    requires Small(roles, os, base, bytes)
    ensures Writable(Written(roles))
  {
    hide Written;
  }

  lemma PartOfRoles(roles: Roles, k: nat)
    requires RolesOk(roles) && k <= |roles|
    ensures RolesOk(roles[..k])
  {
  }

  lemma ChunkNotEmpty(kind: int, data: Words)
    ensures Chunk(kind, data) != []
  {
  }

  /** The last chunk may be empty. */
  lemma LastChunk(data: Words, dsLen: nat, base: int, bytes: Layout, m: Memory)
    requires IsLayout(bytes)
    ensures ReadChunks(Chunk(VH_OBJS, data), dsLen, base, bytes, m) == ReadChunk(VH_OBJS, data, dsLen, base, bytes, m)
  {
    hide ReadObj, Seen;
    SeenIs(bytes, data);
    if data != [] {
      OneChunk(VH_OBJS, data, [], dsLen, base, bytes, m);
      assert Chunk(VH_OBJS, data) + [] == Chunk(VH_OBJS, data);
    }
  }
}
