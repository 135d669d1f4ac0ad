/**
 * What the ORM reaches for outside a single model: the normalised descriptor of
 * every model class (what `new $class()` yields), the word inflector, the
 * database driver's identifier protection and value escaping, and the column
 * list the driver reports for a table. All but the registry are left abstract.
 */
module Context {
  import opened Results
  import opened Strings
  import opened Models
  import opened ModelInit

  datatype Env = Env(
    classes: map<string, Descriptor>,
    infl: Inflector,
    protect: string -> string,
    escape: string -> string,
    columnsOf: string -> seq<string>)

  /** `new $class()`: PHP class names are case-insensitive; an unknown class is a fatal error. */
  function Lookup(env: Env, cls: string): (r: Result<Descriptor>)
    ensures r.Success? <==> ToLower(cls) in env.classes
    ensures r.Success? ==> r.value == env.classes[ToLower(cls)]
  {
    if ToLower(cls) in env.classes then Success(env.classes[ToLower(cls)])
    else Failure("Class '" + cls + "' not found")
  }
}
