/**
 * Class loading, abstracted. A class is known by its fully qualified name and
 * the names of all its supertypes; a class loader is a finite table from names
 * to what `Class.forName(name, false, loader)` does for that name.
 */
module JavaTypes {

  /** A loaded class: its name and the names of every proper supertype. */
  datatype JClass = JClass(name: string, supertypes: set<string>)

  /** What `Class.forName` does for one name. */
  datatype LoadOutcome =
    | Loaded(cls: JClass)
    | ClassNotFound                        // ClassNotFoundException
    | NoClassDefFound                      // NoClassDefFoundError
    | InitializerError(headless: bool)     // ExceptionInInitializerError; `headless` when its cause is a HeadlessException
    | OtherError                           // any other Throwable (LinkageError, ...)

  /** A class loader: names it does not know raise ClassNotFoundException. */
  datatype ClassLoader = ClassLoader(classes: map<string, LoadOutcome>)
  {
    function Load(name: string): (o: LoadOutcome)
      ensures name !in classes ==> o == ClassNotFound
      ensures name in classes ==> o == classes[name]
    {
      if name in classes then classes[name] else ClassNotFound
    }
  }

  /** `a.isAssignableFrom(b)`: `b` is `a` or one of `a`'s subtypes. */
  predicate Assignable(a: JClass, b: JClass)
  {
    b == a || a.name in b.supertypes
  }

  /** Java's class hierarchy has no cycles: two classes are never each other's supertype. */
  predicate Acyclic(a: JClass, b: JClass)
  {
    a.name !in a.supertypes && !(a.name in b.supertypes && b.name in a.supertypes)
    && (a.name == b.name ==> a == b)
  }
}
