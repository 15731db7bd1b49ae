/** The parameter catalogue behind the element template: `PdfParameter`, one parameter a
    sub-function declares, and `ParameterToolbox.getParameters`, which folds the parameter lists
    of every sub-function into one list without duplicate names, ordered by priority. */
module Parameters {
  import opened Wrappers
  import opened JavaLang

  /** The input field that selects the sub-function, and the condition field of every
      conditional parameter. */
  const PDF_FUNCTION := "pdfFunction"
  const CHOOSER_LABEL := "Pdf Function"
  const CHOOSER_CLASS := "java.lang.String"
  const CHOOSER_EXPLANATION := "Choose the function to execute"

  /** The two levels of the template library: required or optional. */
  datatype Level = LevelRequired | LevelOptional

  /** `PdfSubFunction.TypeParameter`. */
  datatype TypeParameter = INPUT | OUTPUT

  /** One entry of a choice list: a code and the name displayed for it. */
  datatype Choice = Choice(code: string, displayName: string)

  /** What the condition slot of a parameter map holds. */
  datatype Condition = ChoiceListCondition(choices: seq<Choice>) | FieldCondition(field: string)

  /** The map `getMap` builds: the five descriptive entries, the condition slot, the choice list
      and, for a parameter registered by some sub-function, the list of those sub-functions. */
  datatype ParameterMap = ParameterMap(
    name: string,
    labelText: string,
    classParameter: string,
    level: Level,
    explanation: string,
    condition: Condition,
    choiceList: seq<Choice>,
    oneOf: Option<seq<string>>)

  // ---------------------------------------------------------------- one parameter

  /** `PdfParameter`: what describes the parameter is fixed at construction; its choices and the
      types of the sub-functions that registered it grow in place. */
  class PdfParameter {
    const name: string
    const labelText: string
    const classParameter: string
    const level: Level
    const explanation: string
    const priority: Int32
    var listOfChoices: seq<Choice>
    var listRegisteredType: seq<string>

    constructor (name: string, labelText: string, classParameter: string, level: Level,
                 explanation: string, priority: Int32)
      ensures this.name == name && this.labelText == labelText && this.classParameter == classParameter
      ensures this.level == level && this.explanation == explanation && this.priority == priority
      ensures listOfChoices == [] && listRegisteredType == []
    {
      this.name := name;
      this.labelText := labelText;
      this.classParameter := classParameter;
      this.level := level;
      this.explanation := explanation;
      this.priority := priority;
      listOfChoices := [];
      listRegisteredType := [];
    }

    /** `addRegisteredType`: one more type at the end; a type already there is added again. */
    method AddRegisteredType(subFunctionType: string)
      modifies this`listRegisteredType
      ensures listRegisteredType == old(listRegisteredType) + [subFunctionType]
    {
      listRegisteredType := listRegisteredType + [subFunctionType];
    }

    /** `addChoice`: one more choice at the end; the same parameter is returned. */
    method AddChoice(code: string, displayName: string) returns (r: PdfParameter)
      modifies this`listOfChoices
      ensures r == this
      ensures listOfChoices == old(listOfChoices) + [Choice(code, displayName)]
    {
      listOfChoices := listOfChoices + [Choice(code, displayName)];
      r := this;
    }

    /** `getMap`: the condition slot first holds the choice list; once a sub-function has
        registered the parameter, it is replaced by the condition field and the registered
        types are the values that show the parameter. */
    function GetMap(parameterNameForCondition: string): (m: ParameterMap)
      reads this
      ensures m.name == name && m.labelText == labelText && m.classParameter == classParameter
      ensures m.level == level && m.explanation == explanation
      ensures m.choiceList == listOfChoices
      ensures m.oneOf.Some? <==> listRegisteredType != []
      ensures m.oneOf.Some? ==> m.oneOf.value == listRegisteredType
                                && m.condition == FieldCondition(parameterNameForCondition)
      ensures m.oneOf.None? ==> m.condition == ChoiceListCondition(listOfChoices)
    {
      var oneParameter := ParameterMap(name, labelText, classParameter, level, explanation,
                                       ChoiceListCondition(listOfChoices), listOfChoices, None);
      if listRegisteredType != [] then
        oneParameter.(condition := FieldCondition(parameterNameForCondition), oneOf := Some(listRegisteredType))
      else oneParameter
    }
  }

  /** A parameter that some sub-function registered is shown only on a condition, and the
      condition lists that sub-function; registering more types never removes one. */
  lemma RegisteredParameterIsConditional(p: PdfParameter, field: string, subFunctionType: string)
    requires subFunctionType in p.listRegisteredType
    ensures p.GetMap(field).condition == FieldCondition(field)
    ensures p.GetMap(field).oneOf.Some? && subFunctionType in p.GetMap(field).oneOf.value
  {
  }

  // ---------------------------------------------------------------- the sub-functions' declarations

  /** What one class of the registry contributes for the asked direction: its type, its name,
      and its parameter lists; a list is `None` when constructing the sub-function or listing
      its parameters throws. Lists may share `PdfParameter` objects. */
  datatype SubFunction = SubFunction(
    subFunctionType: string,
    subFunctionName: string,
    inputs: Option<seq<PdfParameter>>,
    outputs: Option<seq<PdfParameter>>)

  function ParametersOf(f: SubFunction, typeParameter: TypeParameter): Option<seq<PdfParameter>>
  {
    if typeParameter == INPUT then f.inputs else f.outputs
  }

  /** The parameters a sub-function lists, none when listing them fails. */
  function Listed(f: SubFunction, typeParameter: TypeParameter): seq<PdfParameter>
  {
    match ParametersOf(f, typeParameter)
    case None => []
    case Some(parameters) => parameters
  }

  /** One parameter as declared by one sub-function. */
  datatype Declaration = Declaration(parameter: PdfParameter, subFunctionType: string)

  function DeclarationsOf(f: SubFunction, typeParameter: TypeParameter): (ds: seq<Declaration>)
    ensures |ds| == |Listed(f, typeParameter)|
    ensures forall j :: 0 <= j < |ds| ==> ds[j] == Declaration(Listed(f, typeParameter)[j], f.subFunctionType)
  {
    var parameters := Listed(f, typeParameter);
    seq(|parameters|, j requires 0 <= j < |parameters| => Declaration(parameters[j], f.subFunctionType))
  }

  /** Every declaration of the registry, sub-function after sub-function. */
  function Declarations(functions: seq<SubFunction>, typeParameter: TypeParameter): seq<Declaration>
    decreases |functions|
  {
    if functions == [] then []
    else Declarations(functions[..|functions| - 1], typeParameter) + DeclarationsOf(functions[|functions| - 1], typeParameter)
  }

  /** The choices the `pdfFunction` chooser gains: one per sub-function whose parameters could
      be listed. */
  function Choices(functions: seq<SubFunction>, typeParameter: TypeParameter): seq<Choice>
    decreases |functions|
  {
    if functions == [] then []
    else
      var last := functions[|functions| - 1];
      Choices(functions[..|functions| - 1], typeParameter)
      + (if ParametersOf(last, typeParameter).Some? then [Choice(last.subFunctionType, last.subFunctionName)] else [])
  }

  /** Every parameter object some sub-function lists: what collecting may change. */
  ghost function Declared(functions: seq<SubFunction>, typeParameter: TypeParameter): set<PdfParameter>
  {
    set i, j | 0 <= i < |functions| && 0 <= j < |Listed(functions[i], typeParameter)| :: Listed(functions[i], typeParameter)[j]
  }

  // ---------------------------------------------------------------- the collected list

  /** `stream().filter(name equals).findFirst()`. */
  function FirstNamed(list: seq<PdfParameter>, name: string): (r: Option<PdfParameter>)
    ensures r.Some? ==> r.value in list && r.value.name == name
    ensures r.None? <==> forall i :: 0 <= i < |list| ==> list[i].name != name
  {
    if list == [] then None
    else if list[0].name == name then Some(list[0])
    else
      var r := FirstNamed(list[1..], name);
      assert forall i :: 1 <= i < |list| ==> list[i] == list[1..][i - 1];
      r
  }

  /** How many parameters of the list have a priority at most the given one. */
  function CountLe(list: seq<PdfParameter>, priority: int): (n: nat)
    ensures n <= |list|
    decreases |list|
  {
    if list == [] then 0
    else CountLe(list[..|list| - 1], priority) + (if list[|list| - 1].priority <= priority then 1 else 0)
  }

  predicate SortedByPriority(list: seq<PdfParameter>)
  {
    forall i, j :: 0 <= i < j < |list| ==> list[i].priority <= list[j].priority
  }

  predicate UniqueNames(list: seq<PdfParameter>)
  {
    forall i, j :: 0 <= i < j < |list| ==> list[i].name != list[j].name
  }

  /** One declaration taken in: a parameter whose name is already listed is not added again;
      any other goes in at the count of entries whose priority is at most its own. */
  function Collect(list: seq<PdfParameter>, parameter: PdfParameter): seq<PdfParameter>
  {
    if FirstNamed(list, parameter.name).Some? then list
    else
      var position := CountLe(list, parameter.priority);
      list[..position] + [parameter] + list[position..]
  }

  /** The parameter a declaration registers its sub-function with: the one already listed
      under that name, or else the declared parameter itself. */
  function Registrant(list: seq<PdfParameter>, parameter: PdfParameter): (q: PdfParameter)
    ensures q.name == parameter.name
  {
    match FirstNamed(list, parameter.name)
    case Some(listed) => listed
    case None => parameter
  }

  /** The list after taking in every declaration, in order. */
  function CollectAll(list: seq<PdfParameter>, ds: seq<Declaration>): seq<PdfParameter>
    decreases |ds|
  {
    if ds == [] then list
    else Collect(CollectAll(list, ds[..|ds| - 1]), ds[|ds| - 1].parameter)
  }

  /** The types registered under a name: those of the declarations with that name, in order. */
  function Registered(name: string, ds: seq<Declaration>): seq<string>
    decreases |ds|
  {
    if ds == [] then []
    else Registered(name, ds[..|ds| - 1])
         + (if ds[|ds| - 1].parameter.name == name then [ds[|ds| - 1].subFunctionType] else [])
  }

  // ---------------------------------------------------------------- properties

  /** When every entry has a priority at most the given one, the count is the whole list. */
  lemma {:induction false} CountLeAll(list: seq<PdfParameter>, priority: int)
    requires forall i :: 0 <= i < |list| ==> list[i].priority <= priority
    ensures CountLe(list, priority) == |list|
    decreases |list|
  {
    if list != [] {
      var front := list[..|list| - 1];
      assert forall i :: 0 <= i < |front| ==> front[i] == list[i];
      CountLeAll(front, priority);
    }
  }

  /** In a list sorted by priority, the count of entries at most a priority splits the list:
      everything before it is at most that priority, everything from it on is greater. */
  lemma {:induction false} CountLeSplitsSorted(list: seq<PdfParameter>, priority: int)
    requires SortedByPriority(list)
    ensures forall i :: 0 <= i < CountLe(list, priority) ==> list[i].priority <= priority
    ensures forall i :: CountLe(list, priority) <= i < |list| ==> priority < list[i].priority
    decreases |list|
  {
    if list != [] {
      var front := list[..|list| - 1];
      assert forall i :: 0 <= i < |front| ==> front[i] == list[i];
      if list[|list| - 1].priority <= priority {
        assert forall i :: 0 <= i < |front| ==> front[i].priority <= list[|list| - 1].priority;
        CountLeAll(list, priority);
      } else {
        CountLeSplitsSorted(front, priority);
      }
    }
  }

  /** Putting a parameter at a position that splits a sorted list by its priority, when its
      name is not yet there, keeps the list sorted and free of duplicate names. */
  lemma InsertKeepsSortedUnique(list: seq<PdfParameter>, position: nat, parameter: PdfParameter)
    requires position <= |list|
    requires SortedByPriority(list) && UniqueNames(list)
    requires forall i :: 0 <= i < position ==> list[i].priority <= parameter.priority
    requires forall i :: position <= i < |list| ==> parameter.priority < list[i].priority
    requires forall i :: 0 <= i < |list| ==> list[i].name != parameter.name
    ensures SortedByPriority(list[..position] + [parameter] + list[position..])
    ensures UniqueNames(list[..position] + [parameter] + list[position..])
  {
    var r := list[..position] + [parameter] + list[position..];
    assert forall i :: 0 <= i < position ==> r[i] == list[i];
    assert r[position] == parameter;
    assert forall i :: position < i < |r| ==> r[i] == list[i - 1];
    forall i, j | 0 <= i < j < |r|
      ensures r[i].priority <= r[j].priority && r[i].name != r[j].name
    {
      if j < position {
      } else if j == position {
      } else if i < position {
      } else if i == position {
      } else {
        assert r[i] == list[i - 1] && r[j] == list[j - 1];
      }
    }
  }

  /** Taking in a declaration adds at most the declared parameter. */
  lemma CollectMembers(list: seq<PdfParameter>, parameter: PdfParameter)
    ensures forall q :: q in Collect(list, parameter) ==> q in list || q == parameter
    ensures forall q :: q in list ==> q in Collect(list, parameter)
  {
    if FirstNamed(list, parameter.name).None? {
      var position := CountLe(list, parameter.priority);
      assert list == list[..position] + list[position..];
    }
  }

  /** Taking in one declaration keeps the list sorted by priority and free of duplicate names.
      A new parameter goes after every entry whose priority is at most its own, so among equal
      priorities the one seen first stays first, and before every entry of greater priority. */
  lemma CollectKeepsOrder(list: seq<PdfParameter>, parameter: PdfParameter)
    requires SortedByPriority(list) && UniqueNames(list)
    ensures SortedByPriority(Collect(list, parameter)) && UniqueNames(Collect(list, parameter))
    ensures FirstNamed(list, parameter.name).Some? ==> Collect(list, parameter) == list
    ensures FirstNamed(list, parameter.name).None? ==>
              var position := CountLe(list, parameter.priority);
              Collect(list, parameter) == list[..position] + [parameter] + list[position..]
              && (forall i :: 0 <= i < position ==> list[i].priority <= parameter.priority)
              && (forall i :: position <= i < |list| ==> parameter.priority < list[i].priority)
  {
    if FirstNamed(list, parameter.name).None? {
      var position := CountLe(list, parameter.priority);
      CountLeSplitsSorted(list, parameter.priority);
      InsertKeepsSortedUnique(list, position, parameter);
    }
  }

  /** The collected list stays sorted by priority and free of duplicate names. */
  lemma {:induction false} CollectAllSortedUnique(list: seq<PdfParameter>, ds: seq<Declaration>)
    requires SortedByPriority(list) && UniqueNames(list)
    ensures SortedByPriority(CollectAll(list, ds)) && UniqueNames(CollectAll(list, ds))
    decreases |ds|
  {
    if ds != [] {
      CollectAllSortedUnique(list, ds[..|ds| - 1]);
      CollectKeepsOrder(CollectAll(list, ds[..|ds| - 1]), ds[|ds| - 1].parameter);
    }
  }

  /** A name is in the collected list exactly when it was in the list to begin with or some
      declaration bears it. */
  lemma {:induction false} CollectAllNames(list: seq<PdfParameter>, ds: seq<Declaration>, name: string)
    ensures FirstNamed(CollectAll(list, ds), name).Some?
            <==> FirstNamed(list, name).Some? || exists j :: 0 <= j < |ds| && ds[j].parameter.name == name
    decreases |ds|
  {
    if ds != [] {
      var front := ds[..|ds| - 1];
      var last := |ds| - 1;
      CollectAllNames(list, front, name);
      CollectNames(CollectAll(list, front), ds[last].parameter, name);
      assert CollectAll(list, ds) == Collect(CollectAll(list, front), ds[last].parameter);
      DeclaredByFrontOrLast(ds, front, name);
    }
  }

  /** Some declaration bears a name exactly when one before the last does or the last does. */
  lemma DeclaredByFrontOrLast(ds: seq<Declaration>, front: seq<Declaration>, name: string)
    requires ds != [] && front == ds[..|ds| - 1]
    ensures (exists j :: 0 <= j < |ds| && ds[j].parameter.name == name)
            <==> (exists j :: 0 <= j < |front| && front[j].parameter.name == name)
                 || ds[|ds| - 1].parameter.name == name
  {
    if exists j :: 0 <= j < |ds| && ds[j].parameter.name == name {
      var j :| 0 <= j < |ds| && ds[j].parameter.name == name;
      if j < |ds| - 1 {
        assert front[j] == ds[j];
      }
    }
    if exists j :: 0 <= j < |ds| - 1 && front[j].parameter.name == name {
      var j :| 0 <= j < |ds| - 1 && front[j].parameter.name == name;
      assert ds[j] == front[j];
    }
  }

  /** Taking in one declaration adds its name to the names listed, and no other. */
  lemma CollectNames(list: seq<PdfParameter>, parameter: PdfParameter, name: string)
    ensures FirstNamed(Collect(list, parameter), name).Some? <==> FirstNamed(list, name).Some? || parameter.name == name
  {
    var after := Collect(list, parameter);
    CollectMembers(list, parameter);
    if FirstNamed(after, name).Some? {
      var q := FirstNamed(after, name).value;
      if q in list {
        var i :| 0 <= i < |list| && list[i] == q;
        assert list[i].name == name;
      }
    }
    if FirstNamed(list, name).Some? {
      var q := FirstNamed(list, name).value;
      assert q in after;
      var i :| 0 <= i < |after| && after[i] == q;
      assert after[i].name == name;
    } else if parameter.name == name {
      var position := CountLe(list, parameter.priority);
      assert after[position] == parameter;
    }
  }

  /** The types registered under a name are not empty exactly when some declaration bears it. */
  lemma {:induction false} RegisteredOnlyByDeclarers(name: string, ds: seq<Declaration>)
    ensures Registered(name, ds) != [] <==> exists j :: 0 <= j < |ds| && ds[j].parameter.name == name
    decreases |ds|
  {
    if ds != [] {
      var front := ds[..|ds| - 1];
      RegisteredOnlyByDeclarers(name, front);
      assert forall j :: 0 <= j < |front| ==> front[j] == ds[j];
    }
  }

  /** The names of a list, as a set. */
  function NameSet(list: seq<PdfParameter>): set<string>
  {
    set i | 0 <= i < |list| :: list[i].name
  }

  /** Without duplicate names, a list has as many entries as names. */
  lemma {:induction false} UniqueNamesCount(list: seq<PdfParameter>)
    requires UniqueNames(list)
    ensures |NameSet(list)| == |list|
    decreases |list|
  {
    if list != [] {
      var front := list[..|list| - 1];
      assert UniqueNames(front);
      UniqueNamesCount(front);
      assert NameSet(list) == NameSet(front) + {list[|list| - 1].name};
      assert list[|list| - 1].name !in NameSet(front);
    }
  }

  /** The collected list has one entry per distinct name: the names of the starting list
      together with the names of every declaration. */
  lemma CollectAllLength(list: seq<PdfParameter>, ds: seq<Declaration>)
    requires SortedByPriority(list) && UniqueNames(list)
    ensures |CollectAll(list, ds)| == |NameSet(list) + set j | 0 <= j < |ds| :: ds[j].parameter.name|
  {
    var result := CollectAll(list, ds);
    CollectAllSortedUnique(list, ds);
    UniqueNamesCount(result);
    forall name
      ensures name in NameSet(result) <==> name in NameSet(list) + set j | 0 <= j < |ds| :: ds[j].parameter.name
    {
      CollectAllNames(list, ds, name);
      if FirstNamed(result, name).Some? {
        var q := FirstNamed(result, name).value;
        var i :| 0 <= i < |result| && result[i] == q;
      }
      if FirstNamed(list, name).Some? {
        var q := FirstNamed(list, name).value;
        var i :| 0 <= i < |list| && list[i] == q;
      }
    }
    assert NameSet(result) == NameSet(list) + set j | 0 <= j < |ds| :: ds[j].parameter.name;
  }

  /** The chooser gains exactly one choice per sub-function whose parameters could be listed. */
  lemma {:induction false} ChoicesFollowRegistry(functions: seq<SubFunction>, typeParameter: TypeParameter, c: Choice)
    ensures c in Choices(functions, typeParameter)
            <==> exists i :: 0 <= i < |functions| && ParametersOf(functions[i], typeParameter).Some?
                             && c == Choice(functions[i].subFunctionType, functions[i].subFunctionName)
    decreases |functions|
  {
    if functions != [] {
      var front := functions[..|functions| - 1];
      ChoicesFollowRegistry(front, typeParameter, c);
      assert forall i :: 0 <= i < |front| ==> front[i] == functions[i];
    }
  }

  // ---------------------------------------------------------------- the method

  /** The counting loop: the position at which a parameter of the given priority goes. */
  method PositionToAdd(list: seq<PdfParameter>, priority: Int32) returns (positionToAdd: nat)
    ensures positionToAdd == CountLe(list, priority)
  {
    positionToAdd := 0;
    for k := 0 to |list|
      invariant positionToAdd == CountLe(list[..k], priority)
    {
      assert list[..k + 1][..k] == list[..k];
      if list[k].priority <= priority {
        positionToAdd := positionToAdd + 1;
      }
    }
    assert list[..|list|] == list;
  }

  /** One turn of the inner loop: the sub-function is registered with the parameter already
      listed under that name, or else with the declared parameter, which is then inserted. */
  method CollectParameter(list: seq<PdfParameter>, parameter: PdfParameter, subFunctionType: string)
    returns (newList: seq<PdfParameter>)
    modifies Registrant(list, parameter)`listRegisteredType
    ensures newList == Collect(list, parameter)
    ensures Registrant(list, parameter).listRegisteredType
            == old(Registrant(list, parameter).listRegisteredType) + [subFunctionType]
  {
    var parameterInList := FirstNamed(list, parameter.name);
    if parameterInList.None? {
      parameter.AddRegisteredType(subFunctionType);
      var positionToAdd := PositionToAdd(list, parameter.priority);
      newList := list[..positionToAdd] + [parameter] + list[positionToAdd..];
    } else {
      parameterInList.value.AddRegisteredType(subFunctionType);
      newList := list;
    }
  }

  /** The registrations the collected list carries: each entry holds the types it held at the
      start, followed by those of the declarations taken in that bear its name. */
  predicate RegistrationsHold(list: seq<PdfParameter>, start: map<PdfParameter, seq<string>>, ds: seq<Declaration>)
    reads (set q | q in list)`listRegisteredType
  {
    forall q :: q in list ==> q in start && q.listRegisteredType == start[q] + Registered(q.name, ds)
  }

  /** `getParameters`: for INPUT the list starts with the `pdfFunction` chooser; every
      sub-function whose parameters could be listed adds a choice to the chooser, and each of its
      parameters is taken in. The result is the list's maps, with `pdfFunction` as condition
      field. Registrations accumulate on the shared parameter objects: what they held before the
      call, given as `before`, stays in front. */
  method GetParameters(typeParameter: TypeParameter, functions: seq<SubFunction>,
                       ghost before: map<PdfParameter, seq<string>>)
    returns (r: seq<ParameterMap>, ghost collected: seq<PdfParameter>, ghost chooser: PdfParameter)
    requires forall p :: p in Declared(functions, typeParameter) ==> p in before && before[p] == p.listRegisteredType
    modifies Declared(functions, typeParameter)`listRegisteredType
    ensures fresh(chooser)
    ensures chooser.name == PDF_FUNCTION && chooser.labelText == CHOOSER_LABEL && chooser.classParameter == CHOOSER_CLASS
    ensures chooser.level == LevelRequired && chooser.explanation == CHOOSER_EXPLANATION && chooser.priority == 0
    ensures chooser.listOfChoices == Choices(functions, typeParameter)
    ensures collected == CollectAll(if typeParameter == INPUT then [chooser] else [], Declarations(functions, typeParameter))
    ensures forall q :: q in collected ==> q == chooser || q in Declared(functions, typeParameter)
    ensures chooser in collected ==> chooser.listRegisteredType == Registered(PDF_FUNCTION, Declarations(functions, typeParameter))
    ensures forall q :: q in collected && q in Declared(functions, typeParameter) ==>
              q.listRegisteredType == before[q] + Registered(q.name, Declarations(functions, typeParameter))
    ensures forall p :: p in Declared(functions, typeParameter) && p !in collected ==>
              p.listRegisteredType == before[p]
    ensures |r| == |collected|
    ensures forall i :: 0 <= i < |r| ==> r[i] == collected[i].GetMap(PDF_FUNCTION)
  {
    ghost var declared := Declared(functions, typeParameter);
    var chooseFunction := new PdfParameter(PDF_FUNCTION, CHOOSER_LABEL, CHOOSER_CLASS, LevelRequired, CHOOSER_EXPLANATION, 0);
    chooser := chooseFunction;
    ghost var start: map<PdfParameter, seq<string>> := before[chooseFunction := []];
    assert chooseFunction !in declared;
    var pdfParametersCollectList: seq<PdfParameter> := [];
    if typeParameter == INPUT {
      pdfParametersCollectList := [chooseFunction];
    }
    ghost var initial := pdfParametersCollectList;
    ghost var done: seq<Declaration>;
    CollectingAtStart(initial, start, chooseFunction, declared);
    pdfParametersCollectList, done := CollectFunctions(functions, typeParameter, chooseFunction, pdfParametersCollectList, start, declared);
    collected := pdfParametersCollectList;
    CollectingGives(collected, initial, done, start, chooseFunction, declared);
    r := ParameterMaps(pdfParametersCollectList);
  }

  /** The map of every parameter of the list, in order. */
  method ParameterMaps(list: seq<PdfParameter>) returns (r: seq<ParameterMap>)
    ensures |r| == |list|
    ensures forall i :: 0 <= i < |r| ==> r[i] == list[i].GetMap(PDF_FUNCTION)
  {
    r := seq(|list|, k requires 0 <= k < |list| reads set q | q in list => list[k].GetMap(PDF_FUNCTION));
  }

  /** What the collection state says about each parameter object. */
  lemma CollectingGives(list: seq<PdfParameter>, initial: seq<PdfParameter>, done: seq<Declaration>,
                        start: map<PdfParameter, seq<string>>, chooser: PdfParameter, declared: set<PdfParameter>)
    requires Collecting(list, initial, done, start, chooser, declared)
    ensures forall q :: q in list ==> q == chooser || q in declared
    ensures forall q :: q in list ==> q.listRegisteredType == start[q] + Registered(q.name, done)
    ensures forall p :: p in declared && p !in list ==> p.listRegisteredType == start[p]
  {
  }

  /** The outer loop of `getParameters`: each sub-function of the registry that can list
      its parameters is offered as a choice of the chooser, and its parameters are taken in. */
  method CollectFunctions(functions: seq<SubFunction>, typeParameter: TypeParameter, chooser: PdfParameter,
                          initial: seq<PdfParameter>, ghost start: map<PdfParameter, seq<string>>,
                          ghost declared: set<PdfParameter>)
    returns (list: seq<PdfParameter>, ghost done: seq<Declaration>)
    requires declared == Declared(functions, typeParameter)
    requires Collecting(initial, initial, [], start, chooser, declared)
    requires chooser.listOfChoices == []
    modifies declared`listRegisteredType, chooser
    ensures done == Declarations(functions, typeParameter)
    ensures Collecting(list, initial, done, start, chooser, declared)
    ensures chooser.listOfChoices == Choices(functions, typeParameter)
  {
    list, done := initial, [];
    for i := 0 to |functions|
      invariant done == Declarations(functions[..i], typeParameter)
      invariant Collecting(list, initial, done, start, chooser, declared)
      invariant chooser.listOfChoices == Choices(functions[..i], typeParameter)
    {
      var subFunction := functions[i];
      assert functions[..i + 1][..i] == functions[..i];
      ListedAreDeclared(functions, typeParameter, i);
      if ParametersOf(subFunction, typeParameter).Some? {
        var _ := chooser.AddChoice(subFunction.subFunctionType, subFunction.subFunctionName);
        list, done := CollectSubFunction(subFunction, typeParameter, list, initial, done, start, chooser, declared);
      }
    }
    assert functions[..|functions|] == functions;
  }

  /** Before any declaration is taken in, the list is the chooser or nothing. */
  lemma CollectingAtStart(initial: seq<PdfParameter>, start: map<PdfParameter, seq<string>>,
                          chooser: PdfParameter, declared: set<PdfParameter>)
    requires initial == [] || initial == [chooser]
    requires chooser !in declared && chooser in start && start[chooser] == [] && chooser.listRegisteredType == []
    requires forall p :: p in declared ==> p in start && p.listRegisteredType == start[p]
    ensures Collecting(initial, initial, [], start, chooser, declared)
  {
    assert CollectAll(initial, []) == initial;
    assert Registered(chooser.name, []) == [];
  }

  lemma ListedAreDeclared(functions: seq<SubFunction>, typeParameter: TypeParameter, i: nat)
    requires i < |functions|
    ensures forall j :: 0 <= j < |Listed(functions[i], typeParameter)| ==> Listed(functions[i], typeParameter)[j] in Declared(functions, typeParameter)
  {
  }

  /** What holds of the list while the declarations are taken in: it is the specified
      collection of those taken so far, sorted and free of duplicate names, its entries carry
      their registrations, the parameters left out are untouched, and every name taken in is
      listed. `declared` holds every parameter object of the registry; `start` what each held
      before the call. */
  ghost predicate Collecting(list: seq<PdfParameter>, initial: seq<PdfParameter>, done: seq<Declaration>,
                             start: map<PdfParameter, seq<string>>, chooser: PdfParameter, declared: set<PdfParameter>)
    reads declared`listRegisteredType, (set q | q in list)`listRegisteredType
  {
    && list == CollectAll(initial, done)
    && SortedByPriority(list) && UniqueNames(list)
    && chooser !in declared
    && (forall q :: q in list ==> q == chooser || q in declared)
    && (forall p :: p in declared ==> p in start)
    && RegistrationsHold(list, start, done)
    && (forall p :: p in declared && p !in list ==> p.listRegisteredType == start[p])
    && (forall j :: 0 <= j < |done| ==> FirstNamed(list, done[j].parameter.name).Some?)
  }

  /** One declaration taken in, with what it does to the registrations. */
  method CollectStep(list: seq<PdfParameter>, parameter: PdfParameter, subFunctionType: string,
                     ghost initial: seq<PdfParameter>, ghost done: seq<Declaration>,
                     ghost start: map<PdfParameter, seq<string>>, ghost chooser: PdfParameter,
                     ghost declared: set<PdfParameter>)
    returns (newList: seq<PdfParameter>, ghost newDone: seq<Declaration>)
    requires Collecting(list, initial, done, start, chooser, declared)
    requires parameter in declared
    modifies Registrant(list, parameter)`listRegisteredType
    ensures newDone == done + [Declaration(parameter, subFunctionType)]
    ensures Collecting(newList, initial, newDone, start, chooser, declared)
  {
    ghost var d := Declaration(parameter, subFunctionType);
    ghost var registrant := Registrant(list, parameter);
    ghost var regBefore := map o | o in list :: o.listRegisteredType;
    ghost var registrantBefore := registrant.listRegisteredType;
    CollectKeepsOrder(list, parameter);
    CollectMembers(list, parameter);
    newList := CollectParameter(list, parameter, subFunctionType);
    newDone := done + [d];
    assert newDone[..|newDone| - 1] == done;
    StepRegistrations(list, parameter, done, d, start, regBefore, registrantBefore, newList);
    StepNames(list, parameter, done, d, newList);
    assert newList == CollectAll(initial, newDone);
    assert registrant in newList;
    assert forall p :: p in declared && p !in newList ==> p !in list && p != registrant;
  }

  /** The inner loop of `getParameters`: every parameter one sub-function lists, in order. */
  method CollectSubFunction(subFunction: SubFunction, typeParameter: TypeParameter, list: seq<PdfParameter>,
                            ghost initial: seq<PdfParameter>, ghost done: seq<Declaration>,
                            ghost start: map<PdfParameter, seq<string>>, ghost chooser: PdfParameter,
                            ghost declared: set<PdfParameter>)
    returns (newList: seq<PdfParameter>, ghost newDone: seq<Declaration>)
    requires forall j :: 0 <= j < |Listed(subFunction, typeParameter)| ==> Listed(subFunction, typeParameter)[j] in declared
    requires Collecting(list, initial, done, start, chooser, declared)
    modifies declared`listRegisteredType, chooser`listRegisteredType
    ensures newDone == done + DeclarationsOf(subFunction, typeParameter)
    ensures Collecting(newList, initial, newDone, start, chooser, declared)
  {
    var parameters := Listed(subFunction, typeParameter);
    ghost var ds := DeclarationsOf(subFunction, typeParameter);
    newList, newDone := list, done;
    PrefixStep(done, ds, 0);
    for j := 0 to |parameters|
      invariant newDone == done + ds[..j]
      invariant Collecting(newList, initial, newDone, start, chooser, declared)
    {
      newList, newDone := CollectNext(parameters, subFunction.subFunctionType, j, newList,
                                      initial, done, ds, newDone, start, chooser, declared);
    }
    PrefixStep(done, ds, |parameters|);
  }

  /** The `j`-th parameter of a sub-function taken in, as one turn of the inner loop. */
  method CollectNext(parameters: seq<PdfParameter>, subFunctionType: string, j: nat, list: seq<PdfParameter>,
                     ghost initial: seq<PdfParameter>, ghost done: seq<Declaration>, ghost ds: seq<Declaration>,
                     ghost soFar: seq<Declaration>, ghost start: map<PdfParameter, seq<string>>,
                     ghost chooser: PdfParameter, ghost declared: set<PdfParameter>)
    returns (newList: seq<PdfParameter>, ghost newSoFar: seq<Declaration>)
    requires j < |parameters| == |ds| && ds[j] == Declaration(parameters[j], subFunctionType)
    requires parameters[j] in declared && soFar == done + ds[..j]
    requires Collecting(list, initial, soFar, start, chooser, declared)
    modifies declared`listRegisteredType, chooser`listRegisteredType
    ensures newSoFar == done + ds[..j + 1]
    ensures Collecting(newList, initial, newSoFar, start, chooser, declared)
  {
    PrefixStep(done, ds, j);
    newList, newSoFar := CollectStep(list, parameters[j], subFunctionType, initial, soFar, start, chooser, declared);
  }

  /** Bookkeeping of the declarations taken in so far. */
  lemma PrefixStep(done: seq<Declaration>, ds: seq<Declaration>, j: nat)
    requires j <= |ds|
    ensures done + ds[..0] == done
    ensures j < |ds| ==> done + ds[..j + 1] == (done + ds[..j]) + [ds[j]]
    ensures done + ds[..|ds|] == done + ds
  {
    assert ds[..0] == [] && ds[..|ds|] == ds;
    if j < |ds| {
      assert ds[..j + 1] == ds[..j] + [ds[j]];
    }
  }

  /** Registrations after one step, from the registrations before it. */
  lemma StepRegistrations(before: seq<PdfParameter>, parameter: PdfParameter, done: seq<Declaration>,
                          d: Declaration, start: map<PdfParameter, seq<string>>,
                          regBefore: map<PdfParameter, seq<string>>, registrantBefore: seq<string>,
                          after: seq<PdfParameter>)
    requires d.parameter == parameter
    requires after == Collect(before, parameter) && UniqueNames(after)
    requires parameter in start
    requires forall q :: q in before ==> q in start && q in regBefore && regBefore[q] == start[q] + Registered(q.name, done)
    requires Registrant(before, parameter) in before ==> registrantBefore == regBefore[Registrant(before, parameter)]
    requires Registrant(before, parameter) !in before ==> registrantBefore == start[parameter]
    requires forall j :: 0 <= j < |done| ==> FirstNamed(before, done[j].parameter.name).Some?
    requires Registrant(before, parameter).listRegisteredType == registrantBefore + [d.subFunctionType]
    requires forall o :: o in before && o != Registrant(before, parameter) ==> o.listRegisteredType == regBefore[o]
    ensures RegistrationsHold(after, start, done + [d])
  {
    var registrant := Registrant(before, parameter);
    CollectMembers(before, parameter);
    RegistrantListed(before, parameter);
    forall q | q in after
      ensures q in start && q.listRegisteredType == start[q] + Registered(q.name, done + [d])
    {
      RegisteredAppend(q.name, done, d);
      if q != registrant {
        NamesDistinct(after, q, registrant);
      } else if registrant !in before {
        RegisteredOnlyByDeclarers(registrant.name, done);
      }
    }
  }

  /** The registrant is listed once its declaration is taken in. */
  lemma RegistrantListed(before: seq<PdfParameter>, parameter: PdfParameter)
    ensures Registrant(before, parameter) in Collect(before, parameter)
    ensures Registrant(before, parameter) !in before ==> Registrant(before, parameter) == parameter
  {
    if FirstNamed(before, parameter.name).None? {
      var position := CountLe(before, parameter.priority);
      assert Collect(before, parameter)[position] == parameter;
    } else {
      CollectMembers(before, parameter);
    }
  }

  /** One more declaration registers its type under its own name only. */
  lemma RegisteredAppend(name: string, done: seq<Declaration>, d: Declaration)
    ensures Registered(name, done + [d])
            == Registered(name, done) + (if d.parameter.name == name then [d.subFunctionType] else [])
  {
    var ds := done + [d];
    assert ds[..|ds| - 1] == done;
  }

  /** Two entries of a list free of duplicate names have different names. */
  lemma NamesDistinct(list: seq<PdfParameter>, a: PdfParameter, b: PdfParameter)
    requires UniqueNames(list) && a in list && b in list && a != b
    ensures a.name != b.name
  {
    var i :| 0 <= i < |list| && list[i] == a;
    var j :| 0 <= j < |list| && list[j] == b;
    assert i != j;
  }

  lemma StepNames(before: seq<PdfParameter>, parameter: PdfParameter, done: seq<Declaration>,
                  d: Declaration, after: seq<PdfParameter>)
    requires d.parameter == parameter && after == Collect(before, parameter)
    requires forall j :: 0 <= j < |done| ==> FirstNamed(before, done[j].parameter.name).Some?
    ensures forall j :: 0 <= j < |done + [d]| ==> FirstNamed(after, (done + [d])[j].parameter.name).Some?
  {
    forall j | 0 <= j < |done + [d]|
      ensures FirstNamed(after, (done + [d])[j].parameter.name).Some?
    {
      var name := (done + [d])[j].parameter.name;
      if j < |done| {
        var q := FirstNamed(before, name).value;
        assert q in after;
        var a :| 0 <= a < |after| && after[a] == q;
      } else {
        var q := Registrant(before, parameter);
        assert q in after;
        var a :| 0 <= a < |after| && after[a] == q;
      }
    }
  }
}
