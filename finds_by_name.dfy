/** A model of darcy's FindsByName: findByName looks up every match of a name
    through the abstract findAllByName and keeps the first one. */
module FindsByName {

  /** The name of a Java type (the Class<T> argument). */
  type TypeName = string

  /** The locator findByName reports in NotFoundException. */
  datatype Locator = ByName(name: string)

  /** What findByName does: returns the first match, or throws NotFoundException
      carrying the requested type and the locator. */
  datatype Lookup<T> = Found(value: T) | NotFound(elementType: TypeName, locator: Locator)

  /** findByName over a given findAllByName, which is consulted once. */
  function FindByName<T>(findAllByName: (TypeName, string) -> seq<T>, elementType: TypeName, name: string): (r: Lookup<T>)
    ensures r.NotFound? <==> findAllByName(elementType, name) == []
    ensures r.NotFound? ==> r == NotFound(elementType, ByName(name))
    ensures r.Found? ==> r.value == findAllByName(elementType, name)[0]
    ensures r.Found? ==> r.value in findAllByName(elementType, name)
  {
    var found := findAllByName(elementType, name);
    if found == [] then NotFound(elementType, ByName(name)) else Found(found[0])
  }

  /** Only the head of the list matters: two lookups whose lists agree on being empty
      or on their first element give the same result. */
  lemma FindByNameDependsOnlyOnHead<T>(
    f: (TypeName, string) -> seq<T>, g: (TypeName, string) -> seq<T>, elementType: TypeName, name: string)
    requires (f(elementType, name) == []) == (g(elementType, name) == [])
    requires f(elementType, name) != [] ==> f(elementType, name)[0] == g(elementType, name)[0]
    ensures FindByName(f, elementType, name) == FindByName(g, elementType, name)
  {
  }
}
