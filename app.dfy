/**
 * The application state behind the schema-list pane: which schema is
 * selected, which pane has the focus, and whether the program should stop.
 */
module AppState {
  import opened Wrappers
  import opened Spec

  datatype Pane = SchemaList | Detail {
    /** The pane that Tab switches to. */
    function Other(): (p: Pane)
      ensures p != this
    {
      match this
      case SchemaList => Detail
      case Detail => SchemaList
    }
  }

  /** Switching panes twice returns to the pane that had the focus. */
  lemma OtherTwice(p: Pane)
    ensures p.Other().Other() == p
  {
  }

  /** The largest selectable index: the number of schemas minus one,
      saturating at zero when there are none. */
  function LastIndex(names: seq<string>): (r: nat)
    ensures |names| == 0 ==> r == 0
    ensures |names| > 0 ==> r < |names| && r + 1 == |names|
  {
    if |names| > 0 then |names| - 1 else 0
  }

  class App {
    var spec: LoadedSpec
    var selected: nat
    var focusedPane: Pane
    var shouldQuit: bool

    /** The selection is a schema, or 0 when there are no schemas. */
    ghost predicate Valid()
      reads this
    {
      selected <= LastIndex(spec.schemaNames)
    }

    constructor (spec: LoadedSpec)
      ensures this.spec == spec
      ensures selected == 0 && focusedPane == SchemaList && !shouldQuit
      ensures Valid()
    {
      this.spec := spec;
      selected := 0;
      focusedPane := SchemaList;
      shouldQuit := false;
    }

    method MoveUp()
      modifies this`selected
      ensures old(selected) > 0 ==> selected + 1 == old(selected)
      ensures old(selected) == 0 ==> selected == 0
      ensures old(Valid()) ==> Valid()
    {
      if selected > 0 {
        selected := selected - 1;
      }
    }

    method MoveDown()
      modifies this`selected
      ensures old(selected) < LastIndex(spec.schemaNames) ==> selected == old(selected) + 1
      ensures old(selected) >= LastIndex(spec.schemaNames) ==> selected == old(selected)
      ensures old(Valid()) ==> Valid()
    {
      var max := LastIndex(spec.schemaNames);
      if selected < max {
        selected := selected + 1;
      }
    }

    method GotoTop()
      modifies this`selected
      ensures selected == 0
      ensures Valid()
    {
      selected := 0;
    }

    method GotoBottom()
      modifies this`selected
      ensures selected == LastIndex(spec.schemaNames)
      ensures Valid()
      ensures |spec.schemaNames| > 0 ==> SelectedSchemaName() == Some(spec.schemaNames[|spec.schemaNames| - 1])
    {
      selected := LastIndex(spec.schemaNames);
    }

    method TogglePane()
      modifies this`focusedPane
      ensures focusedPane == old(focusedPane).Other()
    {
      focusedPane := focusedPane.Other();
    }

    /** The name at the selection, if the selection is in range. */
    function SelectedSchemaName(): (r: Option<string>)
      reads this
      ensures r.Some? <==> selected < |spec.schemaNames|
      ensures r.Some? ==> r.value == spec.schemaNames[selected] && r.value in spec.schemaNames
      ensures |spec.schemaNames| == 0 ==> r == None
      ensures Valid() && |spec.schemaNames| > 0 ==> r.Some?
    {
      if selected < |spec.schemaNames| then Some(spec.schemaNames[selected]) else None
    }
  }
}
