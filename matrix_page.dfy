/** The matrix page: the platform selection, the guards in front of the
    request and the result tabs. */
module MatrixPage {
  import opened Common
  import opened Strings

  /** `s.filter(keep)`. */
  function Filter(s: seq<string>, keep: string -> bool): seq<string>
    decreases |s|
  {
    if s == [] then []
    else (if keep(s[0]) then [s[0]] else []) + Filter(s[1..], keep)
  }

  /** The filter keeps exactly the elements that pass. */
  lemma {:induction false} FilterMembers(s: seq<string>, keep: string -> bool, x: string)
    ensures x in Filter(s, keep) <==> x in s && keep(x)
    decreases |s|
  {
    if s != [] {
      FilterMembers(s[1..], keep, x);
      assert s == [s[0]] + s[1..];
    }
  }

  /** The filter works piece by piece, so it keeps the order of what passes. */
  lemma {:induction false} FilterAppend(a: seq<string>, b: seq<string>, keep: string -> bool)
    ensures Filter(a + b, keep) == Filter(a, keep) + Filter(b, keep)
    decreases |a|
  {
    if a != [] {
      FilterAppend(a[1..], b, keep);
      assert (a + b)[0] == a[0] && (a + b)[1..] == a[1..] + b;
      var head := if keep(a[0]) then [a[0]] else [];
      assert Filter(a + b, keep) == head + Filter(a[1..] + b, keep);
      assert Filter(a, keep) == head + Filter(a[1..], keep);
      assert head + (Filter(a[1..], keep) + Filter(b, keep)) == (head + Filter(a[1..], keep)) + Filter(b, keep);
    } else {
      assert a + b == b;
    }
  }

  /** The filter changes nothing when everything passes. */
  lemma {:induction false} FilterNoop(s: seq<string>, keep: string -> bool)
    requires forall i :: 0 <= i < |s| ==> keep(s[i])
    ensures Filter(s, keep) == s
    decreases |s|
  {
    if s != [] {
      FilterNoop(s[1..], keep);
    }
  }

  /** The test `p => p !== id`. */
  function Other(id: string): string -> bool
  {
    p => p != id
  }

  /** `prev.filter(p => p !== id)`. */
  function Without(s: seq<string>, id: string): seq<string>
  {
    Filter(s, Other(id))
  }

  /** Every occurrence of id goes, every other element stays as often as it
      was there. */
  lemma {:induction false} WithoutCounts(s: seq<string>, id: string, x: string)
    ensures multiset(Without(s, id))[x] == if x == id then 0 else multiset(s)[x]
    decreases |s|
  {
    if s != [] {
      WithoutCounts(s[1..], id, x);
      assert s == [s[0]] + s[1..];
    }
  }

  /** `togglePlatform` as a function of the selection. */
  function Toggled(s: seq<string>, id: string): seq<string>
  {
    if id in s then Without(s, id) else s + [id]
  }

  /** A toggle removes a present id everywhere and appends an absent one at
      the end; either way the id's membership flips and no other id's
      membership changes. */
  lemma ToggleSpec(s: seq<string>, id: string)
    ensures id in Toggled(s, id) <==> id !in s
    ensures forall x :: x != id ==> (x in Toggled(s, id) <==> x in s)
    ensures id !in s ==> |Toggled(s, id)| == |s| + 1 && Toggled(s, id)[..|s|] == s && Toggled(s, id)[|s|] == id
  {
    if id in s {
      FilterMembers(s, Other(id), id);
      forall x | x != id ensures x in Toggled(s, id) <==> x in s {
        FilterMembers(s, Other(id), x);
      }
    } else {
      assert (s + [id])[..|s|] == s;
    }
  }

  /** Removing a single occurrence keeps the order of the others. */
  lemma ToggleRemovesSingle(a: seq<string>, id: string, b: seq<string>)
    requires id !in a && id !in b
    ensures Toggled(a + [id] + b, id) == a + b
  {
    var keep := Other(id);
    var s := a + [id] + b;
    assert s[|a|] == id;
    assert Toggled(s, id) == Filter(s, keep);
    FilterAppend(a + [id], b, keep);
    FilterAppend(a, [id], keep);
    FilterNoop(a, keep);
    FilterNoop(b, keep);
    assert !keep(id);
    assert Filter([id], keep) == [] + Filter([id][1..], keep);
    assert Filter(s, keep) == a + [] + b;
  }

  /** Toggling an absent id twice gives the selection back. */
  lemma ToggleTwice(s: seq<string>, id: string)
    requires id !in s
    ensures Toggled(Toggled(s, id), id) == s
  {
    ToggleRemovesSingle(s, id, []);
    assert s + [id] + [] == s + [id];
    assert s + [] == s;
  }

  /** The tabs shown: the selected platforms with a truthy result, that is a
      result that is there and is not the empty string, in selection order. */
  function VisibleTabs(selected: seq<string>, results: map<string, string>): seq<string>
  {
    Filter(selected, HasResult(results))
  }

  /** The test `results[pid]` is truthy. */
  function HasResult(results: map<string, string>): string -> bool
  {
    pid => pid in results && results[pid] != ""
  }

  lemma VisibleTabsSpec(selected: seq<string>, results: map<string, string>, pid: string)
    ensures pid in VisibleTabs(selected, results) <==> pid in selected && pid in results && results[pid] != ""
  {
    FilterMembers(selected, HasResult(results), pid);
  }

  /** The tab `handleGenerate` opens after a generation, as written: the first
      selected platform, whether or not it has a result. */
  function ActiveTabAsWritten(selected: seq<string>, results: map<string, string>): string
    requires selected != []
  {
    selected[0]
  }

  /** With an empty answer for the first platform, that tab is hidden and
      opened, although the second platform's tab is shown and is the one the
      corrected choice opens. */
  lemma ActiveTabHidden()
    ensures var selected, results := ["xhs", "douyin"], map["xhs" := "", "douyin" := "正文"];
      && ActiveTabAsWritten(selected, results) !in VisibleTabs(selected, results)
      && VisibleTabs(selected, results) == ["douyin"]
      && FirstVisibleTab(selected, results) == "douyin"
  {
    var selected, results := ["xhs", "douyin"], map["xhs" := "", "douyin" := "正文"];
    var keep := HasResult(results);
    assert Filter(selected[1..][1..], keep) == [];
    assert Filter(selected[1..], keep) == ["douyin"];
  }

  /** Position i holds the first element of s that passes. */
  predicate FirstPass(s: seq<string>, keep: string -> bool, i: int)
  {
    0 <= i < |s| && keep(s[i]) && forall j :: 0 <= j < i ==> !keep(s[j])
  }

  /** The filter starts with the first element that passes. */
  lemma {:induction false} FilterFirst(s: seq<string>, keep: string -> bool)
    requires Filter(s, keep) != []
    ensures exists i :: FirstPass(s, keep, i) && s[i] == Filter(s, keep)[0]
    decreases |s|
  {
    if keep(s[0]) {
      assert FirstPass(s, keep, 0);
    } else {
      FilterFirst(s[1..], keep);
      var i :| FirstPass(s[1..], keep, i) && s[1..][i] == Filter(s[1..], keep)[0];
      forall j | 0 <= j < i + 1 ensures !keep(s[j]) {
        if j > 0 {
          assert s[j] == s[1..][j - 1];
        }
      }
      assert FirstPass(s, keep, i + 1);
    }
  }

  /** The tab the code sets out to open: the first selected platform with a
      result, and the first selected one only when none has. */
  function FirstVisibleTab(selected: seq<string>, results: map<string, string>): (tab: string)
    requires selected != []
    ensures tab in selected
    ensures VisibleTabs(selected, results) != [] ==>
              && tab in VisibleTabs(selected, results)
              && exists i :: FirstPass(selected, HasResult(results), i) && selected[i] == tab
    ensures VisibleTabs(selected, results) == [] ==> tab == selected[0]
  {
    var tabs := VisibleTabs(selected, results);
    if tabs != [] then
      FilterFirst(selected, HasResult(results));
      tabs[0]
    else selected[0]
  }

  /** When the first selected platform has a result, the code's choice is the
      intended one. */
  lemma ActiveTabAgrees(selected: seq<string>, results: map<string, string>)
    requires selected != [] && HasResult(results)(selected[0])
    ensures ActiveTabAsWritten(selected, results) == FirstVisibleTab(selected, results)
  {
    var keep := HasResult(results);
    assert Filter(selected, keep)[0] == selected[0];
  }

  /** The alert `handleGenerate` can raise. */
  datatype PageAlert = NoAlert | EnterTopic | SelectPlatform | GenerateFailed

  /** The state of the page. `call` stands for the request to the matrix
      route: its `results`, or None when the request throws. */
  class PageState {
    var topic: string
    var selected: seq<string>
    var results: map<string, string>
    var activeTab: string

    /** The initial state: no topic, two platforms selected. */
    constructor()
      ensures topic == "" && selected == ["xhs", "douyin"] && results == map[] && activeTab == ""
    {
      topic := "";
      selected := ["xhs", "douyin"];
      results := map[];
      activeTab := "";
    }

    /** Flip one platform in the selection. */
    method Toggle(id: string)
      modifies this
      ensures selected == Toggled(old(selected), id)
      ensures topic == old(topic) && results == old(results) && activeTab == old(activeTab)
    {
      if id in selected {
        selected := Without(selected, id);
      } else {
        selected := selected + [id];
      }
    }

    /** `handleGenerate`. With a blank topic or no platform nothing is sent
      and nothing changes. Otherwise the old results are cleared, one request
      is sent, and its results are stored with the first selected platform's
      tab opened, whether or not that platform has a result. */
    method Generate(call: (string, seq<string>) -> Option<map<string, string>>)
      returns (alert: PageAlert, sent: seq<(string, seq<string>)>)
      modifies this
      ensures topic == old(topic) && selected == old(selected)
      ensures Trim(old(topic)) == [] ==>
                alert == EnterTopic && sent == [] && results == old(results) && activeTab == old(activeTab)
      ensures Trim(old(topic)) != [] && old(selected) == [] ==>
                alert == SelectPlatform && sent == [] && results == old(results) && activeTab == old(activeTab)
      ensures Trim(old(topic)) != [] && old(selected) != [] ==>
                && sent == [(topic, selected)]
                && (call(topic, selected).None? ==>
                      alert == GenerateFailed && results == map[] && activeTab == old(activeTab))
                && (call(topic, selected).Some? ==>
                      alert == NoAlert && results == call(topic, selected).value
                      && activeTab == old(selected)[0])
    {
      if Trim(topic) == [] {
        return EnterTopic, [];
      }
      if selected == [] {
        return SelectPlatform, [];
      }
      results := map[];
      sent := [(topic, selected)];
      match call(topic, selected)
      case None =>
        alert := GenerateFailed;
      case Some(r) =>
        results := r;
        activeTab := ActiveTabAsWritten(selected, results);
        alert := NoAlert;
    }
  }
}
