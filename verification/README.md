# Calculator, logger and notifier — a Dafny model

This project models the three leaf components of the `ab` modules library.

- **Calculator** (`ab::calculator::Calculator`) offers `add`, `subtract`, `multiply` and `divide` over C++ `int`. `divide` throws `std::invalid_argument("Division by zero")` when the divisor is zero.
- **Logger** (`ab::logger::Logger`) is an append-only vector of strings, with `log` and `getLogs`.
- **Notifier** (`ab::notifier::Notifier`) holds a fixed threshold and a `notified` flag. `checkAndNotify` latches the flag once a checked result strictly exceeds the threshold. `wasNotified` reads the flag.

Files:

- `cpp_int.dfy` (module `CppInt`) models C++ `int`. It has a 32-bit newtype `int32` and a truncating division `TruncDiv`, because C++ `/` truncates toward zero (ISO/IEC 14882, section [expr.mul]) while Dafny's `/` is Euclidean. Three things are proved about `TruncDiv`:
  - its contract: it satisfies the remainder property `TruncRemainder`;
  - it is the only quotient that does;
  - it agrees with Euclidean division on non-negative operands.
- `calculator.dfy` (module `Calculator`) holds the four operations. `divide` returns a `Result` instead of throwing.
- `notifier.dfy` (module `Notifier`) models the notifier as an immutable record `State(threshold, notified)`. It has step functions and a fold `CheckAll` over a trace of checks.
- `logger.dfy` (module `Logger`) models the logger as an immutable record `State(logs)`. It has a fold `LogAll` over a trace of `log` calls.
- `scenarios.dfy` (module `Scenarios`) holds the concrete runs of the demonstration driver and the tests, as example lemmas.

Signed overflow is undefined in C++, so `add`, `subtract` and `multiply` require their mathematical result to be representable. `divide` excludes `MIN / -1` for the same reason. A zero divisor is not excluded: it is the modelled error path.

## Model

| member | source | states |
|---|---|---|
| Calculator.Add | src/calculator/Calculator.cpp:19 | when the sum is representable, `add` returns exactly the mathematical sum (no wrap-around) |
| Calculator.Subtract | src/calculator/Calculator.cpp:21 | when the difference is representable, `subtract` returns the first operand minus the second |
| Calculator.Multiply | src/calculator/Calculator.cpp:23 | when the product is representable, `multiply` returns exactly the mathematical product |
| Calculator.Divide | src/calculator/Calculator.cpp:25-30 | `divide` fails if and only if the divisor is zero, and then with InvalidArgument("Division by zero"); otherwise the remainder is smaller than the divisor in magnitude and is zero or has the dividend's sign, and the quotient times the divisor is at most the dividend in magnitude |
| Calculator.DivideIsTruncDiv | src/calculator/Calculator.cpp:29 | a successful `divide` returns C++'s truncating quotient, and on non-negative operands Dafny's Euclidean quotient |
| Calculator.SubtractUndoesAdd | src/calculator/Calculator.cpp:19-21 | `subtract(add(a, b), b) == a` |
| Calculator.AddCommutes | src/calculator/include/ab/calculator/Calculator.h:46-52 | `add` returns the same sum whichever operand comes first, for every pair whose sum is representable |
| Calculator.MultiplyCommutes | src/calculator/include/ab/calculator/Calculator.h:62-68 | `multiply` returns the same product whichever operand comes first, for every pair whose product is representable |
| Calculator.SubtractOrderMatters | src/calculator/include/ab/calculator/Calculator.h:54-60 | swapping the operands of `subtract` negates the difference, so the two orders agree only when the operands are equal |
| Calculator.DivideTruncatesTowardZero | src/calculator/Calculator.cpp:29 | `divide` rounds toward zero for every sign combination: -7/2 = 7/-2 = -3 and -7/-2 = 7/2 = 3 |
| Calculator.DivideUndoesMultiply | src/calculator/Calculator.cpp:23-29 | for a non-zero `b`, `divide(multiply(a, b), b)` never hits the undefined case and returns `a` |
| CppInt.TruncDiv | src/calculator/Calculator.cpp:29 | the C++ quotient `lhs / rhs`: its remainder is smaller than the divisor in magnitude and is zero or has the dividend's sign, and the quotient times the divisor does not exceed the dividend in magnitude |
| CppInt.TruncDivUnique | src/calculator/Calculator.cpp:29 | any quotient whose remainder has those properties is the truncating quotient, so the remainder property alone defines C++ division |
| CppInt.TruncDivMatchesEuclidean | src/calculator/Calculator.cpp:29 | for a dividend >= 0 and any non-zero divisor, Dafny's Euclidean remainder is an admissible truncating remainder, so C++ `/` and its remainder equal Dafny's Euclidean `/` and `%` |
| CppInt.TruncDivRoundsTowardZero | src/calculator/Calculator.cpp:29 | -7 / 2 is -3 with remainder -1 in C++, but -4 with remainder 1 under Euclidean division |
| CppInt.TruncDivInRange | src/calculator/Calculator.cpp:29 | the quotient of two `int`s is an `int` if and only if the division is not `MIN / -1` |
| Notifier.Create | src/notifier/Notifier.cpp:14-17 | the constructor stores the given threshold and starts with the flag false |
| Notifier.CheckAndNotify | src/notifier/Notifier.cpp:19-25 | the threshold is unchanged; afterwards the flag is set if and only if it was set before or the result strictly exceeds the threshold |
| Notifier.WasNotified | src/notifier/Notifier.cpp:27-30 | `wasNotified` returns the flag |
| Notifier.CheckAll | src/notifier/include/ab/notifier/Notifier.h:17-32 | a trace of checks never changes the threshold and never clears a set flag |
| Notifier.AtMostThresholdIsNoOp | src/notifier/Notifier.cpp:21 | a result at or below the threshold, including one equal to it, leaves the whole state unchanged (strict comparison, no reset) |
| Notifier.CheckIdempotent | src/notifier/Notifier.cpp:19-25 | checking the same result twice has the same effect as checking it once |
| Notifier.CheckAllAppend | src/notifier/Notifier.cpp:19-25 | checking trace `xs` then trace `ys` is the same as checking `xs + ys` |
| Notifier.CheckAllNotifiedIff | src/notifier/Notifier.cpp:19-25 | after any trace the flag is set if and only if it was set before or some checked result exceeded the threshold |
| Notifier.WasNotifiedIffExceeded | src/notifier/include/ab/notifier/Notifier.h:17-32 | on a freshly constructed notifier, `wasNotified()` after any trace is true if and only if some checked result exceeded the threshold |
| Notifier.Latch | src/notifier/Notifier.cpp:19-25 | once the flag is set, no later trace of checks clears it |
| Logger.Create | src/logger/include/ab/logger/Logger.h:27 | a default-constructed logger holds no messages |
| Logger.Log | src/logger/Logger.cpp:17-20 | `log` grows the log by exactly one entry, keeps the old log as a prefix, and stores the message verbatim as the new last entry |
| Logger.GetLogs | src/logger/Logger.cpp:22-25 | `getLogs` returns every entry, in order, and nothing else |
| Logger.LogAll | src/logger/Logger.cpp:17-20 | logging a trace of messages appends exactly that trace, in order, to the existing log |
| Logger.GetLogsInInsertionOrder | src/logger/include/ab/logger/Logger.h:20-27 | on a fresh logger, `getLogs()` after any trace of `log` calls is exactly the trace, in insertion order |
| Logger.LastEntryIsLatest | tests/integration/test_logger_notifier.cpp:29-37 | after `log(m)` the log is non-empty and its last entry is `m` |
| Logger.NoDeduplication | src/logger/Logger.cpp:19 | logging a message twice adds two entries equal to it |
| Scenarios.CalculatorUnitTests | src/calculator/tests/test_calculator.cpp:16-33 | the C++ unit-test values: 2+3=5, 5-3=2, 4*3=12, 10/2=5, 10/5=2, and 10/0 fails |
| Scenarios.CalculatorBindingTests | ab_py_calculator/tests/test_calculator.py:11-52 | the Python binding-test values: 2+3=5, -1+1=0, 10+20=30, 5-3=2, 0-5=-5, 3*4=12, -2*3=-6, 0*100=0, 10/2=5, 8/2=4, and 5/0 fails with InvalidArgument("Division by zero") |
| Scenarios.NotifierUnitTest | src/notifier/tests/test_notifier.cpp:5-13 | with threshold 10, checking 5 leaves the flag clear and checking 15 sets it |
| Scenarios.NotifierLatchExample | src/notifier/Notifier.cpp:19-25 | with threshold 10, after 5 and 15 have been checked, checking 1 keeps the flag set |
| Scenarios.DemoScenario | main.cpp:28-59 | 15 + 8 = 23 does not trip threshold 100, 15 * 8 = 120 does, and the log holds the three driver messages in order |
| Scenarios.IntegrationScenario | tests/integration/test_logger_notifier.cpp:17-41 | a logged message is the last entry, and a result of 4 does not trip threshold 5 |

## Left out

- Statelessness of the calculator: the operations are modelled as functions with no receiver, so "copies behave identically" and "`const` operations do not change the calculator" hold by construction. There is no lemma for them.
- The PIMPL machinery (src/calculator/Calculator.cpp:33-55): `unique_ptr`, destructor, copy and move construction and assignment. It manages memory and binary layout and has no behaviour beyond statelessness.
- Signed overflow in `add`, `subtract` and `multiply`, and `INT_MIN / -1` in `divide`: these are undefined behaviour in C++. They are excluded by preconditions rather than given a wrap-around result.
- `const` on `wasNotified` and `getLogs`: the records are immutable values, so a read cannot change them.
- The threshold being private: every operation of `Notifier` keeps `threshold` unchanged (`Notifier.CheckAndNotify`, `Notifier.CheckAll`). Dafny cannot hide the record's constructor the way C++ hides the field.
- `getLogs` returns a const reference: the model returns the sequence by value. The logger changes only through `Logger.Log`, because the record is immutable.
- `log` receives a `const char*`: the model takes the C string's text, which has no NUL character. Null or unterminated pointers are undefined behaviour and are not modelled.
- `std::to_string` in the integration test: the message "Addition: 1 + 2 = 4" is written out as a literal.
- Console output of the demonstration driver (main.cpp): its arithmetic, checks and logging are modelled in `Scenarios.DemoScenario`, but its printing and its top-level `catch` are not.
- The Python bindings (src/calculator/py_Calculator.cpp, ab_py_calculator/), the hot-reload build script (hot_reload.py) and the test harnesses: these are foreign-interface glue, file watching, process control and timing. Only their test values are used, in `Scenarios.CalculatorBindingTests`.
