/**
 * Plain Python callables as values: what a decorated function looks like to the
 * registry and to a proxy, and the callbacks that replace it at activation.
 */
module Callables {
  import opened Wrappers

  /** An attribute value a function can carry (`wrapped = True`, a docstring, `one = 1`). */
  datatype Attr = NoneValue | Text(text: string) | Number(number: int) | Flag(flag: bool)

  /** The arguments of one call, positional and keyword. */
  datatype Args = Args(positional: seq<Attr>, keywords: map<string, Attr>)

  /** What one call does: return a value or raise an error. */
  datatype Outcome = Returned(value: Attr) | Raised(error: string)

  /**
   * A callable: its `__name__`, its `__doc__`, its own `__dict__`, its `repr`
   * and its behaviour on every argument list.
   */
  datatype Callable = Callable(
    name: string,
    doc: Attr,
    attrs: map<string, Attr>,
    repr: string,
    code: Args -> Outcome)

  /** What a callback does with the callable it is given: return a replacement or raise. */
  datatype Replacement = Replaced(callable: Callable) | Failed(error: string)

  type Callback = Callable -> Replacement

  /** The attributes every function answers from its own slots rather than its `__dict__`. */
  const NameKey := "__name__"
  const DocKey := "__doc__"

  /** `getattr(c, attribute)` on a plain function: the name and docstring, then its own attributes. */
  function Lookup(c: Callable, attribute: string): Option<Attr>
  {
    if attribute == NameKey then Some(Text(c.name))
    else if attribute == DocKey then Some(c.doc)
    else if attribute in c.attrs then Some(c.attrs[attribute])
    else None
  }
}
