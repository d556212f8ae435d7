/**
 The path and member helpers of the `Utils\CodeGen` class, the static
 helpers a code generator calls to turn a PHP view class under `src/` into
 a client stub: the class name derived from the file name, the
 slash-delimited view path that names the stub's output file and from
 which the generator derives the class path the stub calls, the list of
 public methods to expose and the records describing their parameters.
 Reflection is not modelled: what `ReflectionClass::getMethods` and
 `ReflectionMethod::getParameters` would report is passed in as data.
 */
module CodeGen {
  import opened PhpStrings
  import opened Sequences

  /** A parameter as reflection reports it: its name and whether it may be omitted. */
  datatype ReflectedParameter = ReflectedParameter(name: string, optional: bool)

  /** A public method as reflection reports it, with its parameters in declaration order. */
  datatype ReflectedMethod = ReflectedMethod(name: string, parameters: seq<ReflectedParameter>)

  /** The record `["name" => ..., "type" => ..., "optional" => ...]` built for a parameter. */
  datatype ParameterRecord = ParameterRecord(name: string, typeName: string, optional: bool)

  /** The record `["name" => ..., "parameters" => ...]` built for an exposed method. */
  datatype MethodRecord = MethodRecord(name: string, parameters: seq<ParameterRecord>)

  /** The type written into every parameter record; the native type lookup is disabled. */
  const Mixed: string := "mixed"

  /** PHP's name for a constructor. */
  const Constructor: string := "__construct"

  /** The path segment that marks the start of a view's path. */
  const ViewSegment: string := "View"

  // ---------------------------------------------------------------------
  // getClassFromFileName
  // ---------------------------------------------------------------------

  /**
   The fully qualified class name for a file: every "src/" removed, a
   leading backslash added, every "/" turned into "\" and every ".php"
   removed. The result always starts with "\" and never holds a "/".
   */
  function ClassFromFileName(file: string): (cls: string)
    ensures |cls| > 0 && cls[0] == '\\'
    ensures '/' !in cls
  {
    var withoutSrc := ReplaceAll(file, "src/", "");
    var backslashed := ReplaceAll(withoutSrc, "/", "\\");
    ReplaceCharPointwise(withoutSrc, '/', '\\');
    assert '/' !in backslashed by {
      forall i | 0 <= i < |backslashed| ensures backslashed[i] != '/' {
        assert backslashed[i] == if withoutSrc[i] == '/' then '\\' else withoutSrc[i];
      }
    }
    var qualified := "\\" + backslashed;
    assert '/' !in qualified by {
      assert forall c :: c in qualified ==> c == '\\' || c in backslashed;
    }
    ReplaceAllKeepsHead(qualified, ".php", "");
    var cls := ReplaceAll(qualified, ".php", "");
    assert '/' !in cls by {
      if '/' in cls {
        ReplaceAllChars(qualified, ".php", "", '/');
      }
    }
    cls
  }

  /**
   Turning every "/" into "\" is the same as splitting the path at "/" and
   joining the segments with "\": the class name is the path's segments
   under the namespace separator.
   */
  lemma ClassFromFileNameSegments(file: string)
    ensures ClassFromFileName(file) ==
      ReplaceAll("\\" + Implode(Explode(ReplaceAll(file, "src/", ""), '/'), "\\"), ".php", "")
  {
    var withoutSrc := ReplaceAll(file, "src/", "");
    var parts := Explode(withoutSrc, '/');
    calc {
      ReplaceAll(withoutSrc, "/", "\\");
      { ImplodeExplode(withoutSrc, '/'); }
      ReplaceAll(Implode(parts, ['/']), ['/'], ['\\']);
      { ReplaceGlue(parts, '/', '\\'); }
      Implode(parts, ['\\']);
    }
  }

  // ---------------------------------------------------------------------
  // getViewPath
  // ---------------------------------------------------------------------

  /**
   The segments after the first "View" segment; nothing at all when no
   segment is "View". The result is a suffix of the input, and when there
   is a "View" it starts right after the first one.
   */
  function AfterFirstView(parts: seq<string>): (after: seq<string>)
    ensures |after| <= |parts| && after == parts[|parts| - |after|..]
    ensures ViewSegment !in parts ==> after == []
    ensures ViewSegment in parts ==>
      |after| < |parts| && parts[|parts| - |after| - 1] == ViewSegment &&
      ViewSegment !in parts[..|parts| - |after| - 1]
    decreases |parts|
  {
    if parts == [] then []
    else if parts[0] == ViewSegment then parts[1..]
    else AfterFirstView(parts[1..])
  }

  predicate NotView(part: string)
  {
    part != ViewSegment
  }

  /**
   The segments a view path is built from: those after the first "View",
   less any later "View". None of them is "View", and each is one of the
   input segments.
   */
  function ViewSegments(parts: seq<string>): (segments: seq<string>)
    ensures ViewSegment !in segments
    ensures forall p :: p in segments ==> p in parts
  {
    Filter(AfterFirstView(parts), NotView)
  }

  /** What `getViewPath` returns for `file`: the empty string when no segment is "View". */
  function ViewPath(file: string): (path: string)
    ensures ViewSegment !in Explode(file, '/') ==> path == ""
  {
    var parts := Explode(file, '/');
    if ViewSegment !in parts then
      ViewSegmentsWithoutView(parts);
      ReplaceAll(Implode(ViewSegments(parts), "/"), ".php", "")
    else
      ReplaceAll(Implode(ViewSegments(parts), "/"), ".php", "")
  }

  /** Appending a segment: it lands after the first "View" exactly when one came before it. */
  lemma {:induction false} AfterFirstViewSnoc(parts: seq<string>, part: string)
    ensures AfterFirstView(parts + [part]) ==
      if ViewSegment in parts then AfterFirstView(parts) + [part] else []
    decreases |parts|
  {
    if parts == [] {
      assert parts + [part] == [part];
      assert [part][1..] == [];
    } else {
      assert (parts + [part])[0] == parts[0];
      assert (parts + [part])[1..] == parts[1..] + [part];
      if parts[0] == ViewSegment {
        assert (parts + [part])[1..] == parts[1..] + [part];
      } else {
        AfterFirstViewSnoc(parts[1..], part);
        assert ViewSegment in parts <==> ViewSegment in parts[1..] by {
          assert parts == [parts[0]] + parts[1..];
        }
      }
    }
  }

  /**
   A path made of a "View"-free prefix, the first "View" and a suffix keeps
   exactly the suffix's segments other than "View", in their order.
   */
  lemma {:induction false} ViewSegmentsAfterFirstView(before: seq<string>, after: seq<string>)
    requires ViewSegment !in before
    ensures ViewSegments(before + [ViewSegment] + after) == Filter(after, NotView)
    decreases |before|
  {
    if before == [] {
      assert before + [ViewSegment] + after == [ViewSegment] + after;
      assert ([ViewSegment] + after)[1..] == after;
    } else {
      assert before[0] in before;
      assert (before + [ViewSegment] + after)[0] == before[0];
      assert (before + [ViewSegment] + after)[1..] == before[1..] + [ViewSegment] + after;
      assert forall p :: p in before[1..] ==> p in before;
      ViewSegmentsAfterFirstView(before[1..], after);
    }
  }

  /** Without a "View" segment nothing is kept. */
  lemma {:induction false} ViewSegmentsWithoutView(parts: seq<string>)
    requires ViewSegment !in parts
    ensures ViewSegments(parts) == []
    decreases |parts|
  {
    if parts != [] {
      assert parts[0] in parts;
      assert forall p :: p in parts[1..] ==> p in parts;
      ViewSegmentsWithoutView(parts[1..]);
    }
  }

  /**
   One step of the walk: a segment is kept exactly when a "View" came
   before it and it is not "View" itself.
   */
  lemma ViewSegmentsSnoc(parts: seq<string>, part: string)
    ensures ViewSegments(parts + [part]) ==
      if ViewSegment in parts && part != ViewSegment then ViewSegments(parts) + [part] else ViewSegments(parts)
  {
    AfterFirstViewSnoc(parts, part);
    if ViewSegment in parts {
      FilterAppend(AfterFirstView(parts), [part], NotView);
      FilterSingleton(part, NotView);
    } else {
      ViewSegmentsWithoutView(parts);
    }
  }

  /**
   `getViewPath`: walks the "/"-segments of `file` with a flag that is
   raised at the first "View", skips every "View" and every segment before
   the flag is raised, collects the rest, joins them with "/" and removes
   ".php".
   */
  method GetViewPath(file: string) returns (path: string)
    ensures path == ViewPath(file)
    ensures ViewSegment !in Explode(file, '/') ==> path == ""
  {
    var parts := Explode(file, '/');
    var kept: seq<string> := [];
    var found := false;
    for i := 0 to |parts|
      invariant found <==> ViewSegment in parts[..i]
      invariant kept == ViewSegments(parts[..i])
    {
      var part := parts[i];
      assert parts[..i + 1] == parts[..i] + [part];
      ViewSegmentsSnoc(parts[..i], part);
      if part == ViewSegment {
        found := true;
        continue;
      } else if !found {
        continue;
      }
      kept := kept + [part];
    }
    assert parts[..|parts|] == parts;
    path := ReplaceAll(Implode(kept, "/"), ".php", "");
  }

  // ---------------------------------------------------------------------
  // getMethodParameters
  // ---------------------------------------------------------------------

  /**
   One record per parameter, in parameter order: the name and the
   optional flag copied, the type always "mixed".
   */
  function ParameterRecords(params: seq<ReflectedParameter>): (records: seq<ParameterRecord>)
    ensures |records| == |params|
    ensures forall i :: 0 <= i < |params| ==>
      records[i].name == params[i].name &&
      records[i].typeName == Mixed &&
      records[i].optional == params[i].optional
    decreases |params|
  {
    if params == [] then []
    else [ParameterRecord(params[0].name, Mixed, params[0].optional)] + ParameterRecords(params[1..])
  }

  /** `getMethodParameters`: appends one record per reflected parameter. */
  method GetMethodParameters(params: seq<ReflectedParameter>) returns (records: seq<ParameterRecord>)
    ensures records == ParameterRecords(params)
  {
    records := [];
    for i := 0 to |params|
      invariant |records| == i
      invariant forall k :: 0 <= k < i ==>
        records[k] == ParameterRecord(params[k].name, Mixed, params[k].optional)
    {
      records := records + [ParameterRecord(params[i].name, Mixed, params[i].optional)];
    }
  }

  // ---------------------------------------------------------------------
  // getViewMethods
  // ---------------------------------------------------------------------

  /**
   Whether a public method is exposed: it is not the constructor and its
   name does not start with "_" (`mb_strpos($name, "_") === 0` holds
   exactly when the first "_" is the first character).
   */
  function IsExposed(name: string): (exposed: bool)
    ensures exposed <==> !(|name| > 0 && name[0] == '_')
  {
    name != Constructor && !(|name| > 0 && name[0] == '_')
  }

  /** The record `getViewMethods` builds for a method it keeps. */
  function Describe(m: ReflectedMethod): (record: MethodRecord)
    ensures record.name == m.name
    ensures |record.parameters| == |m.parameters|
  {
    MethodRecord(m.name, ParameterRecords(m.parameters))
  }

  /**
   The records for the exposed methods, in reflection order: never more
   records than methods.
   */
  function ViewMethods(methods: seq<ReflectedMethod>): (records: seq<MethodRecord>)
    ensures |records| <= |methods|
    decreases |methods|
  {
    if methods == [] then []
    else if IsExposed(methods[0].name) then [Describe(methods[0])] + ViewMethods(methods[1..])
    else ViewMethods(methods[1..])
  }

  /**
   Every record describes an exposed method of the input, and every
   exposed method of the input is described.
   */
  lemma {:induction false} ViewMethodsMembers(methods: seq<ReflectedMethod>)
    ensures forall r :: r in ViewMethods(methods) ==>
      IsExposed(r.name) && exists m :: m in methods && r == Describe(m)
    ensures forall m :: m in methods && IsExposed(m.name) ==> Describe(m) in ViewMethods(methods)
    decreases |methods|
  {
    if methods != [] {
      ViewMethodsMembers(methods[1..]);
      assert forall m :: m in methods[1..] ==> m in methods;
      assert methods == [methods[0]] + methods[1..];
    }
  }

  /** The names of the methods reflection reports, in its order. */
  function MethodNames(methods: seq<ReflectedMethod>): seq<string>
  {
    Map(methods, (m: ReflectedMethod) => m.name)
  }

  /** The names of the records built. */
  function RecordNames(records: seq<MethodRecord>): seq<string>
  {
    Map(records, (r: MethodRecord) => r.name)
  }

  /** Building records commutes with concatenating method lists: input order is kept. */
  lemma {:induction false} ViewMethodsAppend(a: seq<ReflectedMethod>, b: seq<ReflectedMethod>)
    ensures ViewMethods(a + b) == ViewMethods(a) + ViewMethods(b)
    decreases |a|
  {
    if a == [] {
      assert a + b == b;
    } else {
      assert (a + b)[0] == a[0];
      assert (a + b)[1..] == a[1..] + b;
      ViewMethodsAppend(a[1..], b);
    }
  }

  /**
   The names of the records are exactly the exposed names of the input,
   in input order, one per exposed method.
   */
  lemma {:induction false} ViewMethodNames(methods: seq<ReflectedMethod>)
    ensures RecordNames(ViewMethods(methods)) == Filter(MethodNames(methods), IsExposed)
    decreases |methods|
  {
    if methods != [] {
      ViewMethodNames(methods[1..]);
      var names := MethodNames(methods);
      assert names[1..] == MethodNames(methods[1..]);
      var records := ViewMethods(methods);
      if IsExposed(methods[0].name) {
        assert records[1..] == ViewMethods(methods[1..]);
        assert RecordNames(records) == [methods[0].name] + RecordNames(records[1..]);
      }
    }
  }

  /** The first method is described, when it is exposed, ahead of the rest. */
  lemma ViewMethodsCons(m: ReflectedMethod, rest: seq<ReflectedMethod>)
    ensures ViewMethods([m] + rest) == (if IsExposed(m.name) then [Describe(m)] else []) + ViewMethods(rest)
  {
    assert ([m] + rest)[0] == m;
    assert ([m] + rest)[1..] == rest;
  }

  lemma ViewMethodsSingleton(m: ReflectedMethod)
    ensures ViewMethods([m]) == if IsExposed(m.name) then [Describe(m)] else []
  {
    assert [m][1..] == [];
  }

  /**
   `getViewMethods`: skips the constructor and every name starting with
   "_", and appends for every other method its name and its parameter
   records.
   */
  method GetViewMethods(methods: seq<ReflectedMethod>) returns (records: seq<MethodRecord>)
    ensures records == ViewMethods(methods)
  {
    records := [];
    for i := 0 to |methods|
      invariant records == ViewMethods(methods[..i])
    {
      var m := methods[i];
      assert methods[..i + 1] == methods[..i] + [m];
      ViewMethodsAppend(methods[..i], [m]);
      ViewMethodsSingleton(m);
      if m.name == Constructor {
        continue;
      }
      if |m.name| > 0 && m.name[0] == '_' {
        continue;
      }
      var params := GetMethodParameters(m.parameters);
      records := records + [MethodRecord(m.name, params)];
    }
    assert methods[..|methods|] == methods;
  }
}
