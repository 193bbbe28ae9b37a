/**
 * The translation of the list endpoint's query strings `p` (page), `l`
 * (limit), `o` (order) and `f` (filter) into the directives of a store query.
 */
module QueryOptions {
  import opened Common
  import opened Strings
  import opened Store

  const DEFAULT_LIMIT := 10
  const MAX_LIMIT := 100

  /**
   * The raw query strings. `p` and `l` are given by their numeric value:
   * `None` for `p` stands for a missing, empty or non-numeric string, and
   * for `l` for a missing or empty one.
   */
  datatype ListOptionsDto = ListOptionsDto(p: Option<int>, l: Option<int>, o: Option<string>, f: Option<string>)

  /** JavaScript truthiness of an optional string: present and non-empty. */
  predicate Truthy(s: Option<string>)
  {
    s.Some? && s.value != ""
  }

  /** One filter entry: a comma-separated segment of `f` split at its colons. */
  type Entry = seq<string>

  predicate WellFormed(entries: seq<Entry>)
  {
    forall i :: 0 <= i < |entries| ==> |entries[i]| >= 1
  }

  /** No part of the entry contains `c`. */
  predicate FreeOf(e: Entry, c: char)
  {
    forall j :: 0 <= j < |e| ==> c !in e[j]
  }

  /** `item[1]`: the value an entry compares with, `undefined` when its segment had no colon. */
  function EntryValue(e: Entry): Option<string>
  {
    if |e| >= 2 then Some(e[1]) else None
  }

  /** The entries written back as a filter string: `:` inside entries, `,` between them. */
  function JoinEntries(entries: seq<Entry>): string
  {
    Join(seq(|entries|, i requires 0 <= i < |entries| => Join(entries[i], ":")), ",")
  }

  /**
   * The conditions the entries add to a query, one per entry in list order:
   * the entry's first part is the field, its second part the value, and a
   * later entry on a field replaces an earlier one.
   */
  function FilterConditions(entries: seq<Entry>): (conditions: map<string, Option<string>>)
    requires WellFormed(entries)
    ensures forall field :: field in conditions ==>
      exists i :: 0 <= i < |entries| && entries[i][0] == field && conditions[field] == EntryValue(entries[i])
  {
    if entries == [] then map[]
    else
      var last := entries[|entries| - 1];
      FilterConditions(entries[..|entries| - 1])[last[0] := EntryValue(last)]
  }

  lemma FilterConditionsSnoc(entries: seq<Entry>, e: Entry)
    requires WellFormed(entries) && |e| >= 1
    ensures WellFormed(entries + [e])
    ensures FilterConditions(entries + [e]) == FilterConditions(entries)[e[0] := EntryValue(e)]
  {
    assert (entries + [e])[..|entries|] == entries;
  }

  lemma UpdateUnion<K, V>(a: map<K, V>, b: map<K, V>, k: K, v: V)
    ensures (a + b)[k := v] == a + b[k := v]
  {
  }

  /** The query with the entries' conditions merged over its own. */
  function Filtered(query: Query, entries: seq<Entry>): Query
    requires WellFormed(entries)
  {
    query.(conditions := query.conditions + FilterConditions(entries))
  }

  /** One `where` of `applyFilters` extends the conditions of the entries before it by one entry. */
  lemma WhereStep(query: Query, entries: seq<Entry>, i: nat)
    requires WellFormed(entries) && i < |entries|
    ensures WellFormed(entries[..i]) && WellFormed(entries[..i + 1])
    ensures Filtered(query, entries[..i]).Where(entries[i][0], EntryValue(entries[i])) == Filtered(query, entries[..i + 1])
  {
    assert entries[..i + 1] == entries[..i] + [entries[i]];
    FilterConditionsSnoc(entries[..i], entries[i]);
    UpdateUnion(query.conditions, FilterConditions(entries[..i]), entries[i][0], EntryValue(entries[i]));
  }

  datatype ListOptions = ListOptions(dto: ListOptionsDto)
  {
    /** `+p || null`: the page number, absent for a missing page and for page 0. */
    function Page(): (page: Option<int>)
      ensures page.None? <==> dto.p.None? || dto.p.value == 0
      ensures page.Some? ==> page.value == dto.p.value
    {
      if dto.p.Some? && dto.p.value != 0 then dto.p else None
    }

    /** The page size: the default without `l`, otherwise `l` capped at the maximum. */
    function Limit(): (limit: int)
      ensures limit <= MAX_LIMIT
      ensures dto.l.None? ==> limit == DEFAULT_LIMIT
      ensures dto.l.Some? ==> limit <= dto.l.value && (limit == dto.l.value || limit == MAX_LIMIT)
    {
      if dto.l.Some? then Min(dto.l.value, MAX_LIMIT) else DEFAULT_LIMIT
    }

    /** The number of records before the page: none without a page, otherwise `page - 1` pages of `limit`. */
    function Offset(): (offset: int)
      ensures Page().None? ==> offset == 0
      ensures Page().Some? ==> offset + Limit() == Page().value * Limit()
      ensures Page().Some? && Page().value >= 1 && Limit() >= 0 ==> offset >= 0
    {
      if Page().Some? then (Page().value - 1) * Limit() else 0
    }

    /** `o.split(',').join(' ')`: the sort string, absent when `o` is missing or empty. */
    function Order(): (order: Option<string>)
      ensures order.None? <==> !Truthy(dto.o)
      ensures order.Some? ==> order.value == ReplaceChar(dto.o.value, ',', ' ')
      ensures order.Some? ==> |order.value| == |dto.o.value| && ',' !in order.value
    {
      if !Truthy(dto.o) then None
      else
        JoinSplitReplaces(dto.o.value, ',', ' ');
        Some(Join(Split(dto.o.value, ','), " "))
    }

    /** `f.split(',').map(i => i.split(':'))`: no entries when `f` is missing or empty. */
    function Filter(): (entries: seq<Entry>)
      ensures !Truthy(dto.f) ==> entries == []
      ensures Truthy(dto.f) ==> |entries| == Count(dto.f.value, ',') + 1
      ensures WellFormed(entries)
      ensures Truthy(dto.f) ==> forall i :: 0 <= i < |entries| ==>
        (|entries[i]| == 1 <==> ':' !in Split(dto.f.value, ',')[i])
    {
      if !Truthy(dto.f) then []
      else
        var segments := Split(dto.f.value, ',');
        seq(|segments|, i requires 0 <= i < |segments| => Split(segments[i], ':'))
    }

    /** `applyFilters`: one `where` per filter entry, in list order; nothing else of the query changes. */
    method ApplyFilters(query: Query) returns (result: Query)
      ensures result == query.(conditions := query.conditions + FilterConditions(Filter()))
    {
      var filter := Filter();
      result := query;
      assert filter[..0] == [];
      for i := 0 to |filter|
        invariant WellFormed(filter[..i]) && result == Filtered(query, filter[..i])
      {
        var item := filter[i];
        WhereStep(query, filter, i);
        result := result.Where(item[0], EntryValue(item));
      }
      assert filter[..|filter|] == filter;
    }
  }

  /** Without any query strings: no offset, the default limit, no order and no filter. */
  lemma Defaults()
    ensures var opts := ListOptions(ListOptionsDto(None, None, None, None));
      opts.Offset() == 0 && opts.Limit() == DEFAULT_LIMIT && opts.Order() == None && opts.Filter() == []
  {
  }

  /** A limit given as 500 is capped at 100. */
  lemma LimitCapped()
    ensures ListOptions(ListOptionsDto(None, Some(500), None, None)).Limit() == MAX_LIMIT
  {
  }

  /** An order without commas is passed on unchanged. */
  lemma {:induction false} OrderWithoutCommas(opts: ListOptions)
    requires Truthy(opts.dto.o) && ',' !in opts.dto.o.value
    ensures opts.Order() == opts.dto.o
  {
    var o := opts.dto.o.value;
    assert ReplaceChar(o, ',', ' ') == o by {
      forall i | 0 <= i < |o| ensures ReplaceChar(o, ',', ' ')[i] == o[i] {
        assert o[i] != ',';
      }
    }
  }

  /** No part of a filter entry contains `,` or `:`. */
  lemma FilterFreeOf(opts: ListOptions)
    ensures forall i :: 0 <= i < |opts.Filter()| ==> FreeOf(opts.Filter()[i], ',') && FreeOf(opts.Filter()[i], ':')
  {
    if Truthy(opts.dto.f) {
      var segments := Split(opts.dto.f.value, ',');
      forall i | 0 <= i < |segments| ensures FreeOf(Split(segments[i], ':'), ',') {
        SplitAvoids(segments[i], ':', ',');
      }
    }
  }

  /** Re-joining the entries with `:` and the segments with `,` gives `f` back. */
  lemma FilterRoundTrip(opts: ListOptions)
    requires Truthy(opts.dto.f)
    ensures JoinEntries(opts.Filter()) == opts.dto.f.value
  {
    var f := opts.dto.f.value;
    var segments := Split(f, ',');
    var entries := opts.Filter();
    var rejoined := seq(|entries|, i requires 0 <= i < |entries| => Join(entries[i], ":"));
    forall i | 0 <= i < |segments| ensures rejoined[i] == segments[i] {
      JoinSplit(segments[i], ':');
    }
    assert rejoined == segments;
    JoinSplit(f, ',');
  }

  /** A join keeps out a character that neither the parts nor the separator contain. */
  lemma {:induction false} JoinAvoids(parts: seq<string>, sep: string, c: char)
    requires c !in sep
    requires forall i :: 0 <= i < |parts| ==> c !in parts[i]
    ensures c !in Join(parts, sep)
  {
    if |parts| > 1 {
      JoinAvoids(parts[1..], sep, c);
    }
  }

  /** Conversely, entries free of `,` and `:` that join to a non-empty string are what that string translates to. */
  lemma FilterOfJoinedEntries(entries: seq<Entry>)
    requires WellFormed(entries)
    requires forall i :: 0 <= i < |entries| ==> FreeOf(entries[i], ',') && FreeOf(entries[i], ':')
    requires JoinEntries(entries) != ""
    ensures ListOptions(ListOptionsDto(None, None, None, Some(JoinEntries(entries)))).Filter() == entries
  {
    var segments := seq(|entries|, i requires 0 <= i < |entries| => Join(entries[i], ":"));
    forall i | 0 <= i < |segments| ensures ',' !in segments[i] && Split(segments[i], ':') == entries[i] {
      JoinAvoids(entries[i], ":", ',');
      SplitJoin(entries[i], ':');
    }
    assert |segments| >= 1;
    SplitJoin(segments, ',');
  }

  /** The fields the conditions constrain are exactly the entries' fields. */
  lemma {:induction false} FilterConditionsFields(entries: seq<Entry>)
    requires WellFormed(entries)
    ensures FilterConditions(entries).Keys == set i | 0 <= i < |entries| :: entries[i][0]
  {
    if entries != [] {
      var prefix := entries[..|entries| - 1];
      FilterConditionsFields(prefix);
      assert forall i :: 0 <= i < |prefix| ==> prefix[i] == entries[i];
    }
  }

  /** The condition on an entry's field is that entry's value unless a later entry names the same field. */
  lemma {:induction false} FilterConditionsLastWins(entries: seq<Entry>, i: nat)
    requires WellFormed(entries) && i < |entries|
    requires forall j :: i < j < |entries| ==> entries[j][0] != entries[i][0]
    ensures entries[i][0] in FilterConditions(entries)
    ensures FilterConditions(entries)[entries[i][0]] == EntryValue(entries[i])
  {
    if i < |entries| - 1 {
      var prefix := entries[..|entries| - 1];
      FilterConditionsLastWins(prefix, i);
    }
  }

  /**
   * A filter of one `field:value` pair (such as `lastName:Doe`) gives one
   * entry, which constrains that field to that value and nothing else.
   */
  lemma SingleFilter(field: string, value: string)
    requires ',' !in field && ':' !in field && ',' !in value && ':' !in value
    ensures ListOptions(ListOptionsDto(None, None, None, Some(field + ":" + value))).Filter() == [[field, value]]
    ensures FilterConditions([[field, value]]) == map[field := Some(value)]
  {
    var f := field + ":" + value;
    assert f == field + [':'] + value;
    SplitWithoutSeparator(f, ',');
    SplitAfterPart(field, ':', value);
    SplitWithoutSeparator(value, ':');
    assert Split(f, ':') == [field, value];
    assert Truthy(Some(f));
    var opts := ListOptions(ListOptionsDto(None, None, None, Some(f)));
    assert opts.Filter() == seq(1, i requires 0 <= i < 1 => Split(f, ':'));
    assert [[field, value]][..0] == [];
  }

  /** Page 5 of 10 with order `-firstName`: offset 40, limit 10, the order unchanged. */
  lemma CustomizedList()
    ensures var opts := ListOptions(ListOptionsDto(Some(5), Some(10), Some("-firstName"), Some("lastName:Doe")));
      opts.Offset() == 40 && opts.Limit() == 10 && opts.Order() == Some("-firstName")
  {
    OrderWithoutCommas(ListOptions(ListOptionsDto(Some(5), Some(10), Some("-firstName"), Some("lastName:Doe"))));
  }
}
