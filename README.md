# netipv6zone, modelled in Dafny

The `netipv6zone` fix is one rewrite of the `fix` source-migration tool. It adapts the element
keys of `IPAddr`, `UDPAddr` and `TCPAddr` composite literals, so that code keeps compiling
when those structures of package `net` gain a field. It rewrites positional literals of
`net.IPAddr`, `net.UDPAddr` and `net.TCPAddr` to keyed form:

- a positional element 0 `e` becomes `IP: e`;
- element 1 is deleted when it is the basic literal `0`, and otherwise becomes `Port: e`;
- the fix reports whether it changed anything.

The fix runs only in files that import `"net"`.

The project has two modules:

- `GoAst` (`goast.dfy`) holds the fragment of Go's syntax tree the fix looks at.
- `NetIPv6Zone` (`netipv6zone.dfy`) holds the fix, modelled on three levels.
  - `RewriteElts` is the closed form of what happens to one literal's elements.
  - `RangeLoop` is the Go loop `for i, e := range cl.Elts`, taken one iteration at a time. It
    works on the slice's backing array. The range length is evaluated once, before the loop.
    Each iteration reads its element from the array as it is at that moment. The deletion
    `append(s[:1], s[2:]...)` moves the tail down in the same array. `RangeLoopRewrites`
    proves that the loop computes `RewriteElts`, because iterations 2 and later never write.
  - The class `CompositeLit` keeps a literal's elements in an array together with the slice
    length. Its method `Rewrite` runs the loop in place and is proved against `RangeLoop`
    and `RewriteElts`. The method `Fix` visits the literals in walk order, rewrites those of
    a `net` address type and returns the `fixed` flag. It is proved against the value-level
    functions `FixNodes` and `Fixed`, whose honesty and idempotence are lemmas.

The `break` at `netipv6zone.go:48` leaves the element loop at the first key/value element.
So `&net.TCPAddr{ip, Port: p}` becomes `&net.TCPAddr{IP: ip, Port: p}` and sets `fixed`
(`KeyedSecondElementKept`). Elements from index 2 on are never rewritten, so a positional
literal with three elements comes out partly keyed. The keys are `IP` and `Port` for all three
types, `IPAddr` included.

## Model

| member | source | states |
|---|---|---|
| `NetIPv6Zone.IsNetAddrType` | examples/fixnetipv6zone/netipv6zone.go:37-45 | a literal's type passes the filter exactly when it is one of the three selectors `net.IPAddr`, `net.UDPAddr`, `net.TCPAddr`; elided types, non-selectors, other packages and a nil selector name fail |
| `NetIPv6Zone.RangeLoop` | examples/fixnetipv6zone/netipv6zone.go:46-67 | the range loop from iteration `i` on over the live backing array: the array keeps its size, the slice loses at most the one deleted element and none from iteration 2 on, and the flag is never cleared and only set by an iteration that does not break |
| `NetIPv6Zone.Visit` | examples/fixnetipv6zone/netipv6zone.go:32-68 | the walk callback on one node: the node changes exactly when it is a net address literal with a positional first element, and the node it leaves would not change again |
| `NetIPv6Zone.FixNodes` | examples/fixnetipv6zone/netipv6zone.go:26-69 | the visited nodes after the fix, in walk order: the same number of nodes, and node `k` changes exactly when "net" is imported and the callback sets `fixed` on it |
| `NetIPv6Zone.Fixed` | examples/fixnetipv6zone/netipv6zone.go:31-70 | the returned flag: set only when "net" is imported and some literal was visited |
| `NetIPv6Zone.RewriteElts` | examples/fixnetipv6zone/netipv6zone.go:46-67 | a literal's elements change exactly when its first element is positional; the result never has a positional first element, so it is a fixed point |
| `NetIPv6Zone.FirstElementKeyed` | examples/fixnetipv6zone/netipv6zone.go:51-55 | a positional element 0 `e` becomes `KeyValue(Ident("IP"), e)`, keeping the original value expression |
| `NetIPv6Zone.ZeroSecondElementDeleted` | examples/fixnetipv6zone/netipv6zone.go:57-58 | a positional element 1 that is the basic literal `0` is removed: the list shrinks by one and the later elements follow in their old order |
| `NetIPv6Zone.OtherSecondElementKeyed` | examples/fixnetipv6zone/netipv6zone.go:59-64 | any other positional element 1 `e`, identifiers included, becomes `KeyValue(Ident("Port"), e)`; the elements from index 2 on are kept unchanged |
| `NetIPv6Zone.KeyedSecondElementKept` | examples/fixnetipv6zone/netipv6zone.go:46-49 | processing stops at the first key/value element: a keyed element 1 after a positional element 0 is kept as it is |
| `NetIPv6Zone.RewriteKeepsValues` | examples/fixnetipv6zone/netipv6zone.go:51-64 | with keys stripped, the values of the rewritten literal are the original values in order, minus the deleted zero |
| `NetIPv6Zone.LaterIterationsInert` | examples/fixnetipv6zone/netipv6zone.go:46-67 | from iteration 2 on, the range loop changes neither the backing array nor the slice length; it stops at a key/value element or sets the flag |
| `NetIPv6Zone.RangeLoopRewrites` | examples/fixnetipv6zone/netipv6zone.go:46-67 | the range loop, run over the live backing array with in-place deletion, leaves the slice equal to `RewriteElts` of the old elements; it sets the flag exactly when element 0 was positional |
| `NetIPv6Zone.CompositeLit.Cut` | examples/fixnetipv6zone/netipv6zone.go:58 | deleting element `i` shifts the tail down in the same backing array, leaves the last slot stale and shortens the slice by one |
| `NetIPv6Zone.CompositeLit.Rewrite` | examples/fixnetipv6zone/netipv6zone.go:46-67 | in place, the literal's elements become `RewriteElts` of the old ones; the backing array stays the same object; the flag is set exactly when element 0 was positional |
| `NetIPv6Zone.Fix` | examples/fixnetipv6zone/netipv6zone.go:26-71 | every visited literal becomes what `FixNodes` says; the returned flag is `Fixed` of the old literals; backing arrays are kept |
| `NetIPv6Zone.NoNetImportNoChange` | examples/fixnetipv6zone/netipv6zone.go:27-29 | a file that does not import "net" is left unchanged and the fix returns false |
| `NetIPv6Zone.OnlyNetAddrLiteralsTouched` | examples/fixnetipv6zone/netipv6zone.go:33-45 | a node that is not a composite literal of type `net.IPAddr`, `net.UDPAddr` or `net.TCPAddr` is left exactly as it was |
| `NetIPv6Zone.FixedIffChanged` | examples/fixnetipv6zone/netipv6zone_test.go:139-142 | the returned flag is true if and only if some node changed |
| `NetIPv6Zone.FixIdempotent` | examples/fixnetipv6zone/netipv6zone_test.go:144-159 | running the fix on its own output returns false and changes nothing |
| `NetIPv6Zone.TestFileRewritten` | examples/fixnetipv6zone/netipv6zone_test.go:52-72 | the six literals of the test input become the six of the expected output, the flag is set, and a second run is a no-op |

## Left out

- The tree walk (`fix.Walk`) lives in a package that is not part of this model. `Fix` takes the composite-literal nodes the walk reaches, in walk order. Nodes of other kinds need no model, because the callback returns at once for them. A literal nested inside another literal's element is a separate node of the walk. Inside the element's value, `Expr` does not update it.
- `fix.Imports(f, "net")` is not part of this model. It is the boolean input `importsNet`.
- `fix.IsTopName` is not part of this model. `IsNetAddrType` tests for the identifier `net` only. It does not model the resolution check that the identifier is not a locally declared object.
- `fix.Register` and the registration record: only the fix's name and date are kept, as constants. The description text has no behaviour.
- Parsing, gofmt printing and the textual diff used by the tests are external library calls and text I/O. The test's `changed == fixed` check compares printed text; here it is stated on syntax trees (`FixedIffChanged`).
- The command-line behaviour (standard input and output, in-place writes, `-diff`, `-r`) is file-system and process I/O.
- Fix: its requires asks that the walk reach each literal once and that no two literals share a backing array. A Go parser produces trees of that shape; aliased element slices are not modelled.
