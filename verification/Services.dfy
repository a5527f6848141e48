// Service names: configured as a comma-separated list, registered, printed into an
// announcement, copied into a peer entry and searched there
// (ceell/core/config_parser.c, ceell/core/service_registry.c,
// ceell/network/service_discovery.c).
module Services {
  import opened Common
  import opened Discovery

  const MAX_SERVICES: nat := 4
  const NAME_MAX: nat := 31
  const CSV_SIZE: nat := 128

  // Error numbers; the contracts below write them out.
  const EINVAL := 22
  const ENOENT := 2
  const ENOMEM := 12

  // ---------------------------------------------------------------- comma-separated text

  // Position of the first comma, the length when there is none.
  function Comma(s: string): (i: nat)
    ensures i <= |s|
    ensures i < |s| ==> s[i] == ','
    ensures forall k :: 0 <= k < i ==> s[k] != ','
  {
    if |s| == 0 || s[0] == ',' then 0 else 1 + Comma(s[1..])
  }

  // All fields between commas, empty ones included.
  function Split(s: string): seq<string>
    decreases |s|
  {
    var i := Comma(s);
    if i == |s| then [s] else [s[..i]] + Split(s[i + 1..])
  }

  // The fields a scan visits that stops at the end of the text: an empty field after the
  // last comma is not one of them.
  function Tokens(s: string): seq<string>
    decreases |s|
  {
    if |s| == 0 then []
    else
      var i := Comma(s);
      if i == |s| then [s] else [s[..i]] + Tokens(s[i + 1..])
  }

  function Join(names: seq<string>): string {
    if |names| == 0 then ""
    else if |names| == 1 then names[0]
    else Join(names[..|names| - 1]) + "," + names[|names| - 1]
  }

  predicate CommaFree(s: string) {
    ',' !in s
  }

  predicate ValidName(s: string) {
    0 < |s| <= 31 && CommaFree(s)
  }

  // ---------------------------------------------------------------- laws of splitting and joining

  lemma FirstComma(a: string, b: string)
    ensures Comma(a + "," + b) == Comma(a)
  {
    var s := a + "," + b;
    assert s[|a|] == ',' && forall k :: 0 <= k < |a| ==> s[k] == a[k];
  }

  lemma SplitUnfold(s: string)
    ensures var i := Comma(s);
      Split(s) == if i == |s| then [s] else [s[..i]] + Split(s[i + 1..])
  {
    hide Comma;
  }

  lemma {:induction false} SplitAtComma(a: string, b: string)
    ensures Split(a + "," + b) == Split(a) + Split(b)
    decreases |a|
  {
    hide Comma, Split;
    var s := a + "," + b;
    var i := Comma(a);
    FirstComma(a, b);
    SplitUnfold(a);
    SplitUnfold(s);
    if i == |a| {
      assert s[..|a|] == a && s[|a| + 1..] == b;
    } else {
      assert s[..i] == a[..i] && s[i + 1..] == a[i + 1..] + "," + b;
      SplitAtComma(a[i + 1..], b);
      assert [a[..i]] + (Split(a[i + 1..]) + Split(b)) == ([a[..i]] + Split(a[i + 1..])) + Split(b);
    }
  }

  lemma CommaFreeSplit(s: string)
    requires CommaFree(s)
    ensures Split(s) == [s]
  {
    assert Comma(s) == |s|;
  }

  // One field further in a text, as the scanning loops go.
  lemma ScanStep(s: string, p: nat)
    requires p < |s|
    ensures var len := Comma(s[p..]); var token := s[p..][..len];
      && p + len <= |s|
      && Split(s[p..]) == [token] + (if p + len < |s| then Split(s[p + len + 1..]) else [])
      && Tokens(s[p..]) == [token] + (if p + len < |s| then Tokens(s[p + len + 1..]) else [])
  {
    var len := Comma(s[p..]);
    if p + len < |s| {
      assert s[p..][len + 1..] == s[p + len + 1..];
    } else {
      assert s[p..][..len] == s[p..];
    }
  }

  lemma ScanEnd(s: string)
    ensures s[0..] == s && s[|s|..] == "" && Split("") == [""] && Tokens("") == []
  {
  }

  // Splitting a printed list of comma-free names gives the list back.
  lemma {:induction false} SplitJoin(names: seq<string>)
    requires |names| > 0 && forall n :: n in names ==> CommaFree(n)
    ensures Split(Join(names)) == names
  {
    var k := |names| - 1;
    CommaFreeSplit(names[k]);
    if k > 0 {
      SplitJoin(names[..k]);
      SplitAtComma(Join(names[..k]), names[k]);
      assert names == names[..k] + [names[k]];
    } else {
      assert names == [names[0]];
    }
  }

  // A scan visits every field except an empty last one.
  lemma {:induction false} TokensOfSplit(s: string)
    ensures |Split(s)| > 0
    ensures var last := |Split(s)| - 1;
      Tokens(s) == if Split(s)[last] == "" then Split(s)[..last] else Split(s)
    decreases |s|
  {
    var i := Comma(s);
    if i < |s| {
      TokensOfSplit(s[i + 1..]);
      var rest := Split(s[i + 1..]);
      assert Split(s) == [s[..i]] + rest;
      assert Split(s)[..|rest|] == [s[..i]] + rest[..|rest| - 1];
    }
  }

  lemma {:induction false} NonEmptyField(s: string, name: string)
    requires name != ""
    ensures name in Tokens(s) <==> name in Split(s)
  {
    TokensOfSplit(s);
    var fields := Split(s);
    var last := |fields| - 1;
    assert fields == fields[..last] + [fields[last]];
  }

  // For any list of names whatever, a non-empty name is found in the printed list exactly
  // when it is a field of one of them.
  lemma {:induction false} FoundInJoin(names: seq<string>, name: string)
    requires name != ""
    ensures name in Tokens(Join(names)) <==> exists n :: n in names && name in Split(n)
  {
    NonEmptyField(Join(names), name);
    if |names| == 0 {
      assert Split("") == [""];
    } else if |names| > 1 {
      var k := |names| - 1;
      FoundInJoin(names[..k], name);
      NonEmptyField(Join(names[..k]), name);
      SplitAtComma(Join(names[..k]), names[k]);
      assert names == names[..k] + [names[k]];
    }
  }

  // Comma-free names: a non-empty name is found exactly when it was listed. A name with a
  // comma in it is therefore never found.
  lemma {:induction false} FoundExactlyWhenListed(names: seq<string>, name: string)
    requires name != "" && forall n :: n in names ==> CommaFree(n)
    ensures name in Tokens(Join(names)) <==> name in names
  {
    FoundInJoin(names, name);
    forall n | n in names
      ensures Split(n) == [n]
    {
      CommaFreeSplit(n);
    }
  }

  // A listed name with a comma is not found under its own name: the exact exception.
  lemma {:induction false} CommaNameNotFound(s: string, name: string)
    requires !CommaFree(name)
    ensures name !in Tokens(s)
    decreases |s|
  {
    if |s| > 0 {
      var i := Comma(s);
      if i < |s| {
        CommaNameNotFound(s[i + 1..], name);
      }
    }
  }

  lemma {:induction false} JoinLength(names: seq<string>)
    requires forall n :: n in names ==> |n| <= NAME_MAX
    ensures |names| > 0 ==> |Join(names)| <= (NAME_MAX + 1) * |names| - 1
    ensures |names| == 0 ==> |Join(names)| == 0
  {
    if |names| > 1 {
      JoinLength(names[..|names| - 1]);
    }
  }

  lemma JoinStep(names: seq<string>, i: nat)
    requires i < |names|
    ensures Join(names[..i + 1]) == if i > 0 then Join(names[..i]) + "," + names[i] else names[i]
  {
    assert names[..i + 1][..i] == names[..i];
  }

  lemma JoinNothing()
    ensures Join([]) == ""
  {
  }

  // A longer list prints longer, so the space checks fail exactly when the whole does not fit.
  lemma {:induction false} JoinGrows(names: seq<string>, i: nat)
    requires i <= |names|
    ensures |Join(names[..i])| <= |Join(names)|
    decreases |names| - i
  {
    if i == |names| {
      assert names[..i] == names;
    } else {
      JoinGrows(names, i + 1);
      assert names[..i + 1][..i] == names[..i];
    }
  }

  // ---------------------------------------------------------------- configuration

  // The fields a configuration keeps.
  function Kept(fields: seq<string>): seq<string> {
    if |fields| == 0 then []
    else (if 0 < |fields[0]| <= NAME_MAX then [fields[0]] else []) + Kept(fields[1..])
  }

  // Split on commas, keep fields of 1 to 31 characters, take the first 4.
  function ParseSpec(csv: string): seq<string> {
    var kept := Kept(Split(csv));
    if |kept| <= MAX_SERVICES then kept else kept[..MAX_SERVICES]
  }

  datatype Sla = Sla(name: string, priority: int, deadlineMs: int)

  // parse_services_csv, with `csv` absent when the JSON lacked the field.
  method ParseServicesCsv(csv: Option<string>) returns (services: seq<string>, slas: seq<Sla>)
    ensures services == if csv.Some? then ParseSpec(csv.value) else []
    ensures |slas| == |services| && forall k :: 0 <= k < |slas| ==> slas[k] == Sla(services[k], 1, 0)
  {
    hide Split, Kept;
    services, slas := [], [];
    KeptStep("", []);
    if csv.None? || csv.value == "" {
      ScanEnd("");
      return;
    }
    var text := csv.value;
    ScanEnd(text);
    var p := 0;
    while p < |text| && |services| < MAX_SERVICES
      invariant p <= |text| && |services| <= MAX_SERVICES
      invariant Kept(Split(text)) == services + Kept(Split(text[p..]))
      invariant |slas| == |services| && forall k :: 0 <= k < |slas| ==> slas[k] == Sla(services[k], 1, 0)
      decreases |text| - p
    {
      var len := Comma(text[p..]);
      var token := text[p..][..len];
      KeepField(services, text, p);
      if 0 < len <= NAME_MAX {
        services := services + [token];
        slas := slas + [Sla(Truncate(token, NAME_MAX), 1, 0)];
      }
      if p + len < |text| {
        p := p + len + 1;
      } else {
        return;
      }
    }
  }

  // What is collected so far and what is still to come, before and after one field.
  lemma KeepField(services: seq<string>, text: string, p: nat)
    requires p < |text|
    ensures var len := Comma(text[p..]); var token := text[p..][..len];
      && p + len <= |text|
      && services + Kept(Split(text[p..])) ==
           (if 0 < len <= NAME_MAX then services + [token] else services) +
           (if p + len < |text| then Kept(Split(text[p + len + 1..])) else [])
  {
    hide Split, Kept, Comma;
    var len := Comma(text[p..]);
    var token := text[p..][..len];
    var rest := if p + len < |text| then Split(text[p + len + 1..]) else [];
    ScanStep(text, p);
    KeptStep(token, rest);
    Regroup(services, token, 0 < len <= NAME_MAX, Kept(rest));
  }

  lemma Regroup(services: seq<string>, token: string, keep: bool, rest: seq<string>)
    ensures services + ((if keep then [token] else []) + rest) == (if keep then services + [token] else services) + rest
  {
  }

  lemma KeptStep(field: string, rest: seq<string>)
    ensures Kept([field] + rest) == (if 0 < |field| <= NAME_MAX then [field] else []) + Kept(rest)
    ensures Kept([]) == [] && Kept([""]) == []
  {
    assert ([field] + rest)[1..] == rest;
  }

  lemma {:induction false} SplitCommaFree(s: string)
    ensures forall f :: f in Split(s) ==> CommaFree(f)
    decreases |s|
  {
    var i := Comma(s);
    if i < |s| {
      SplitCommaFree(s[i + 1..]);
    }
  }

  lemma {:induction false} KeptValid(fields: seq<string>)
    requires forall f :: f in fields ==> CommaFree(f)
    ensures forall f :: f in Kept(fields) <==> f in fields && ValidName(f)
  {
    if |fields| > 0 {
      var rest := fields[1..];
      assert fields == [fields[0]] + rest;
      KeptStep(fields[0], rest);
      KeptValid(rest);
      assert ValidName(fields[0]) <==> 0 < |fields[0]| <= NAME_MAX;
    }
  }

  // Whatever the configured text, the services read from it are valid names, at most 4.
  lemma {:induction false} ParsedAreValid(csv: string)
    ensures |ParseSpec(csv)| <= 4 && forall n :: n in ParseSpec(csv) ==> ValidName(n)
  {
    SplitCommaFree(csv);
    KeptValid(Split(csv));
  }

  lemma {:induction false} KeptAll(names: seq<string>)
    requires forall n :: n in names ==> ValidName(n)
    ensures Kept(names) == names
  {
    if |names| > 0 {
      KeptAll(names[1..]);
      assert names == [names[0]] + names[1..];
      assert ValidName(names[0]);
      KeptStep(names[0], names[1..]);
    }
  }

  // Parsing a printed list of valid names gives back the first 4: all of them when there are
  // no more.
  lemma {:induction false} ParseInvertsPrint(names: seq<string>)
    requires forall n :: n in names ==> ValidName(n)
    ensures ParseSpec(Join(names)) == names[..Min(|names|, 4)]
  {
    if |names| == 0 {
      assert Split("") == [""] && Kept([""]) == [];
    } else {
      SplitJoin(names);
      KeptAll(names);
    }
  }

  // Empty and overlong fields are passed over, wherever they stand, and do not count.
  lemma {:induction false} BadFieldsSkipped(before: seq<string>, bad: string, after: seq<string>)
    requires forall n :: n in before + [bad] + after ==> CommaFree(n)
    requires |bad| == 0 || |bad| > 31
    ensures ParseSpec(Join(before + [bad] + after)) == ParseSpec(Join(before + after))
  {
    hide Split, Join;
    SplitJoin(before + [bad] + after);
    KeptSkips(before, bad, after);
    if before + after == [] {
      JoinNothing();
      ScanEnd("");
      KeptStep("", []);
    } else {
      forall n | n in before + after
        ensures CommaFree(n)
      {
        assert n in before + [bad] + after;
      }
      SplitJoin(before + after);
    }
  }

  lemma {:induction false} KeptSkips(before: seq<string>, bad: string, after: seq<string>)
    requires |bad| == 0 || |bad| > 31
    ensures Kept(before + [bad] + after) == Kept(before + after)
  {
    if |before| == 0 {
      assert before + [bad] + after == [bad] + after && before + after == after;
      KeptStep(bad, after);
    } else {
      var rest := before[1..];
      assert before + [bad] + after == [before[0]] + (rest + [bad] + after);
      assert before + after == [before[0]] + (rest + after);
      KeptStep(before[0], rest + [bad] + after);
      KeptStep(before[0], rest + after);
      KeptSkips(rest, bad, after);
    }
  }

  // ---------------------------------------------------------------- registry

  // `handler` identifies a callback, absent for NULL.
  datatype Entry = Entry(name: string, handler: Option<int>, priority: int, deadlineMs: int)

  function Names(entries: seq<Entry>): (r: seq<string>)
    ensures |r| == |entries| && forall k :: 0 <= k < |r| ==> r[k] == entries[k].name
  {
    seq(|entries|, k requires 0 <= k < |entries| => entries[k].name)
  }

  function RegisterSpec(entries: seq<Entry>, e: Entry): seq<Entry> {
    if |entries| < MAX_SERVICES then entries + [e.(name := Truncate(e.name, NAME_MAX))] else entries
  }

  // First entry with this name, |entries| when there is none.
  function Lookup(entries: seq<Entry>, name: string): (i: nat)
    ensures i <= |entries|
    ensures i < |entries| ==> entries[i].name == name
    ensures forall k :: 0 <= k < i ==> entries[k].name != name
  {
    if |entries| == 0 || entries[0].name == name then 0 else 1 + Lookup(entries[1..], name)
  }

  function Found(entries: seq<Entry>, name: Option<string>): Option<Entry> {
    if name.Some? && Lookup(entries, name.value) < |entries| then Some(entries[Lookup(entries, name.value)]) else None
  }

  function RegisterAll(entries: seq<Entry>): seq<Entry> {
    if |entries| == 0 then []
    else RegisterSpec(RegisterAll(entries[..|entries| - 1]), entries[|entries| - 1])
  }

  // What a name resolves to is the first entry of that name, and nothing exactly when no
  // entry has it.
  lemma FoundIsFirst(entries: seq<Entry>, name: string)
    ensures match Found(entries, Some(name))
      case None => forall k :: 0 <= k < |entries| ==> entries[k].name != name
      case Some(e) => exists i :: FirstOf(entries, i, e, name)
    ensures Found(entries, None) == None
  {
    var i := Lookup(entries, name);
    if i < |entries| {
      assert FirstOf(entries, i, entries[i], name);
    }
  }

  ghost predicate FirstOf(entries: seq<Entry>, i: nat, e: Entry, name: string) {
    i < |entries| && entries[i] == e && e.name == name && forall k :: 0 <= k < i ==> entries[k].name != name
  }

  // A registration never changes what a name already resolves to. A name that resolved to
  // nothing resolves afterwards exactly when there was room and it is the registered one, cut
  // to 31 characters, and then to the handler, priority and deadline registered with it.
  lemma {:induction false} RegistrationResolves(entries: seq<Entry>, e: Entry, name: string)
    ensures var before, after := Found(entries, Some(name)), Found(RegisterSpec(entries, e), Some(name));
      if before.Some? then after == before
      else
        && (after.Some? <==> |entries| < 4 && Holds(e.name, 31, name))
        && (after.Some? ==>
              after.value.handler == e.handler && after.value.priority == e.priority
              && after.value.deadlineMs == e.deadlineMs)
  {
    var i, after := Lookup(entries, name), RegisterSpec(entries, e);
    assert forall k :: 0 <= k < |entries| ==> after[k] == entries[k];
    if |after| > |entries| && after[|entries|].name == name {
      assert Lookup(after, name) < |after|;
    }
  }

  // memcpy of a text into a buffer.
  method CopyText(buf: array<char>, pos: nat, text: string)
    requires pos + |text| <= buf.Length
    modifies buf
    ensures buf[..pos + |text|] == old(buf[..pos]) + text
  {
    forall k | 0 <= k < |text| {
      buf[pos + k] := text[k];
    }
  }

  class Registry {
    const services: array<Entry>
    var count: nat

    ghost predicate Valid()
      reads this
    {
      services.Length == MAX_SERVICES && count <= services.Length
    }

    ghost function Entries(): seq<Entry>
      reads this, services
      requires Valid()
    {
      services[..count]
    }

    constructor ()
      ensures Valid() && Entries() == [] && fresh(services)
    {
      services := new Entry[MAX_SERVICES](_ => Entry("", None, 0, 0));
      count := 0;
    }

    // ceell_service_register_sla
    method Register(name: Option<string>, handler: Option<int>, priority: int, deadlineMs: int) returns (ret: int)
      requires Valid()
      modifies this, services
      ensures Valid()
      ensures Entries() ==
        if name.Some? then RegisterSpec(old(Entries()), Entry(name.value, handler, priority, deadlineMs))
        else old(Entries())
      ensures ret == if name.None? then -22 else if |old(Entries())| < 4 then 0 else -12
      ensures ret != 0 ==> Entries() == old(Entries())
      ensures ret == 0 ==>
        && |Entries()| == |old(Entries())| + 1 && Entries()[..|old(Entries())|] == old(Entries())
        && var e := Entries()[|old(Entries())|];
           Holds(name.value, 31, e.name) && e.handler == handler && e.priority == priority && e.deadlineMs == deadlineMs
    {
      if name.None? {
        return -EINVAL;
      }
      if count >= MAX_SERVICES {
        return -ENOMEM;
      }
      services[count] := Entry(Truncate(name.value, NAME_MAX), handler, priority, deadlineMs);
      count := count + 1;
      assert services[..count] == old(services[..count]) + [services[count - 1]];
      return 0;
    }

    // The registrations of main: the configured services, then those built in. An error is
    // reported and passed over.
    method RegisterEach(entries: seq<Entry>)
      requires Valid() && Entries() == []
      modifies this, services
      ensures Valid() && Entries() == RegisterAll(entries)
    {
      for i := 0 to |entries|
        invariant Valid() && Entries() == RegisterAll(entries[..i])
      {
        var e := entries[i];
        assert entries[..i + 1][..i] == entries[..i];
        var ret := Register(Some(e.name), e.handler, e.priority, e.deadlineMs);
      }
      assert entries[..|entries|] == entries;
    }

    // The scan shared by the three lookups.
    method Find(name: Option<string>) returns (e: Option<Entry>)
      requires Valid()
      ensures e == Found(Entries(), name)
    {
      if name.None? {
        return None;
      }
      for i := 0 to count
        invariant Valid() && forall k :: 0 <= k < i ==> services[k].name != name.value
      {
        if services[i].name == name.value {
          assert Entries()[i] == services[i];
          return Some(services[i]);
        }
      }
      return None;
    }

    // ceell_service_get_handler, ceell_service_get_priority and ceell_service_get_deadline:
    // an unknown name has no handler, priority NORMAL and no deadline.
    method Terms(name: Option<string>) returns (handler: Option<int>, priority: int, deadlineMs: int)
      requires Valid()
      ensures var e := Found(Entries(), name).GetOr(Entry("", None, 1, 0));
        handler == e.handler && priority == e.priority && deadlineMs == e.deadlineMs
    {
      handler, priority, deadlineMs := None, 1, 0;
      var e := Find(name);
      if e.Some? {
        handler, priority, deadlineMs := e.value.handler, e.value.priority, e.value.deadlineMs;
      }
    }

    // A registration followed by a lookup of its name, as by main and a handler thread: the
    // terms registered first for a name are those it gets.
    method RegisterAndResolve(name: string, handler: Option<int>, priority: int, deadlineMs: int)
      returns (resolved: Option<int>, pri: int, deadline: int)
      requires Valid() && |name| <= 31
      modifies this, services
      ensures Valid()
      ensures |old(Entries())| < 4 && (forall e :: e in old(Entries()) ==> e.name != name) ==>
        resolved == handler && pri == priority && deadline == deadlineMs
      ensures var first := Found(old(Entries()), Some(name));
        first.Some? ==>
          resolved == first.value.handler && pri == first.value.priority && deadline == first.value.deadlineMs
    {
      var before := services[..count];
      RegistrationResolves(before, Entry(name, handler, priority, deadlineMs), name);
      FoundIsFirst(before, name);
      var ret := Register(Some(name), handler, priority, deadlineMs);
      resolved, pri, deadline := Terms(Some(name));
    }

    // ceell_service_names_csv
    method NamesCsv(buf: array<char>) returns (ret: int)
      requires Valid()
      modifies buf
      ensures buf.Length == 0 <==> ret == -22
      ensures buf.Length > 0 ==> (ret == 0 <==> |Join(Names(Entries()))| < buf.Length)
      ensures ret == 0 ==>
        var text := Join(Names(Entries())); buf[..|text|] == text && buf[|text|] == '\0'
      ensures ret in {0, -22, -12}
    {
      hide Join;
      if buf.Length == 0 {
        return -EINVAL;
      }
      JoinNothing();
      ghost var names := Names(Entries());
      buf[0] := '\0';
      var pos := 0;
      for i := 0 to count
        invariant pos == |Join(names[..i])| < buf.Length
        invariant buf[..pos] == Join(names[..i])
      {
        var name := services[i].name;
        var need := |name| + (if i > 0 then 1 else 0);
        JoinStep(names, i);
        if pos + need >= buf.Length {
          JoinGrows(names, i + 1);
          return -ENOMEM;
        }
        if i > 0 {
          buf[pos] := ',';
          pos := pos + 1;
        }
        CopyText(buf, pos, name);
        pos := pos + |name|;
      }
      assert names[..count] == names;
      buf[pos] := '\0';
      return 0;
    }
  }

  // ---------------------------------------------------------------- lookup in the peer table

  // csv_contains
  method CsvContains(csv: string, name: string) returns (found: bool)
    ensures found <==> name in Tokens(csv)
  {
    hide Tokens;
    ScanEnd(csv);
    var p := 0;
    while p < |csv|
      invariant p <= |csv|
      invariant name in Tokens(csv) <==> name in Tokens(csv[p..])
      decreases |csv| - p
    {
      var len := Comma(csv[p..]);
      ScanStep(csv, p);
      if len == |name| && csv[p..][..len] == name {
        return true;
      }
      if p + len < |csv| {
        p := p + len + 1;
      } else {
        return false;
      }
    }
    return false;
  }

  predicate Offers(p: Peer, name: string) {
    name in Tokens(p.services)
  }

  // First peer that offers the service, |peers| when none does.
  function FirstOffering(peers: seq<Peer>, name: string): (i: nat)
    ensures i <= |peers|
    ensures i < |peers| ==> Offers(peers[i], name)
    ensures forall k :: 0 <= k < i ==> !Offers(peers[k], name)
  {
    if |peers| == 0 || Offers(peers[0], name) then 0 else 1 + FirstOffering(peers[1..], name)
  }

  // ceell_service_find_peer: the address of the first peer that offers the service.
  method FindPeer(table: PeerTable, name: Option<string>) returns (ret: int, ip: string)
    requires table.Valid()
    ensures name.None? ==> ret == -22
    ensures name.Some? ==>
      var peers := table.Entries(); var i := FirstOffering(peers, name.value);
      if i < |peers| then ret == 0 && Holds(peers[i].ip, 15, ip) else ret == -2
  {
    ip := "";
    if name.None? {
      return -EINVAL, ip;
    }
    var peers := table.GetPeers(table.cfg.maxPeers);
    assert peers == table.Entries();
    for i := 0 to |peers|
      invariant forall k :: 0 <= k < i ==> !Offers(peers[k], name.value)
    {
      var found := CsvContains(peers[i].services, name.value);
      if found {
        return 0, Truncate(peers[i].ip, IP_LEN);
      }
    }
    return -ENOENT, ip;
  }

  // ---------------------------------------------------------------- the whole trip

  // The first 4 of the names registered, in order.
  lemma {:induction false} RegisterAllNames(entries: seq<Entry>)
    requires forall e :: e in entries ==> |e.name| <= 31
    ensures Names(RegisterAll(entries)) == Names(entries)[..Min(|entries|, 4)]
  {
    if |entries| > 0 {
      var k := |entries| - 1;
      RegisterAllNames(entries[..k]);
      assert Names(entries)[..k] == Names(entries[..k]);
    }
  }

  // Up to 4 registered names of at most 31 characters always fit the announcement's
  // 128 bytes, and the copy into a peer entry loses nothing of them: 4 * 31 + 3 is 127.
  lemma {:induction false} AnnouncementFits(names: seq<string>)
    requires |names| <= 4 && forall n :: n in names ==> |n| <= 31
    ensures |Join(names)| < CSV_SIZE == 128 && Truncate(Join(names), SERVICES_LEN) == Join(names)
  {
    JoinLength(names);
  }

  // With 4 names of 31 characters the printed list fills the buffer to the last byte.
  lemma {:induction false} AnnouncementTight(names: seq<string>)
    requires |names| == 4 && forall n :: n in names ==> |n| == 31
    ensures |Join(names)| == 127 == CSV_SIZE - 1
  {
    assert names[..3][..2] == names[..2] && names[..2][..1] == names[..1];
    assert |Join(names[..1])| == 31 && |Join(names[..2])| == 63 && |Join(names[..3])| == 95;
  }

  // The registrations made for configured names.
  function Configured(names: seq<string>): (r: seq<Entry>)
    ensures |r| == |names| && forall k :: 0 <= k < |r| ==> r[k] == Entry(names[k], None, 1, 0)
  {
    seq(|names|, k requires 0 <= k < |names| => Entry(names[k], None, 1, 0))
  }

  // The built-in services there is room for beside the configured ones.
  function BuiltInsWithRoom(csv: string, builtIns: seq<Entry>): seq<string> {
    Names(builtIns)[..Max(0, Min(|builtIns|, 4 - |ParseSpec(csv)|))]
  }

  lemma {:induction false} RegisteredNames(csv: string, builtIns: seq<Entry>)
    requires forall e :: e in builtIns ==> ValidName(e.name)
    ensures Names(RegisterAll(Configured(ParseSpec(csv)) + builtIns))
      == ParseSpec(csv) + BuiltInsWithRoom(csv, builtIns)
    ensures forall n :: n in ParseSpec(csv) + BuiltInsWithRoom(csv, builtIns) ==> ValidName(n)
  {
    hide ParseSpec, RegisterAll;
    var names := ParseSpec(csv);
    var entries := Configured(names) + builtIns;
    ParsedAreValid(csv);
    forall e | e in entries
      ensures ValidName(e.name)
    {
      if e in Configured(names) {
        var k :| 0 <= k < |names| && e == Configured(names)[k];
        assert names[k] in names;
      }
    }
    RegisterAllNames(entries);
    assert Names(entries) == names + Names(builtIns);
    forall n | n in Names(builtIns)
      ensures ValidName(n)
    {
      var k :| 0 <= k < |builtIns| && n == builtIns[k].name;
      assert builtIns[k] in builtIns;
    }
  }

  // From one node's start-up to another's lookup. Whatever services text a node was
  // configured with, and whatever services are built in: once it announces itself and the
  // receiver has it in its table, a non-empty name is offered by its entry exactly when the
  // configuration listed it or it is built in and there was room left for it.
  lemma {:induction false} ConfiguredIsOffered(
      cfg: Config, peers: seq<Peer>, csv: string, builtIns: seq<Entry>, msg: Announcement, t: int, name: string)
    requires TableOk(cfg, peers) && name != ""
    requires forall e :: e in builtIns ==> ValidName(e.name)
    requires msg.services == Some(Join(Names(RegisterAll(Configured(ParseSpec(csv)) + builtIns))))
    requires cfg.self != Some(ToUint32(msg.nodeId))
    ensures var after := AnnounceSpec(cfg, peers, msg, t); var i := IndexOf(after, ToUint32(msg.nodeId));
      && (i < |after| ==>
            (Offers(after[i], name) <==> name in ParseSpec(csv) || name in BuiltInsWithRoom(csv, builtIns)))
      && (i == |after| <==> IndexOf(peers, ToUint32(msg.nodeId)) == |peers| >= cfg.maxPeers)
  {
    hide ParseSpec, AnnounceSpec;
    var names := ParseSpec(csv) + BuiltInsWithRoom(csv, builtIns);
    RegisteredNames(csv, builtIns);
    ParsedAreValid(csv);
    AnnouncementFits(names);
    FoundExactlyWhenListed(names, name);
    AnnouncedEntry(cfg, peers, msg, t);
  }

  // The announcing node's entry carries the announced services and time, and the address
  // announced when the entry was made.
  lemma AnnouncedEntry(cfg: Config, peers: seq<Peer>, msg: Announcement, t: int)
    requires msg.services.Some? && cfg.self != Some(ToUint32(msg.nodeId))
    ensures var after := AnnounceSpec(cfg, peers, msg, t); var i := IndexOf(after, ToUint32(msg.nodeId));
      && (i < |after| ==> after[i].services == Truncate(msg.services.value, SERVICES_LEN) && after[i].lastSeen == t)
      && (i < |after| ==> var k := IndexOf(peers, ToUint32(msg.nodeId));
            after[i].ip == if k < |peers| then peers[k].ip else Field(msg.ip, IP_LEN))
      && (i == |after| <==> IndexOf(peers, ToUint32(msg.nodeId)) == |peers| >= cfg.maxPeers)
  {
    var id := ToUint32(msg.nodeId);
    var before, after := IndexOf(peers, id), AnnounceSpec(cfg, peers, msg, t);
    assert before < |peers| || |peers| < cfg.maxPeers ==> before < |after| && after[before].nodeId == id;
    assert forall k :: 0 <= k < before ==> after[k].nodeId == peers[k].nodeId != id;
  }
}
