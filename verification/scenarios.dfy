/** Concrete runs taken from the demonstration driver and the tests: the three
    components composed by a caller, with the values those programs use.
 */
module Scenarios {
  import opened CppInt
  import opened Calculator
  import Notifier
  import Logger

  /** The values the C++ calculator unit tests use. */
  lemma CalculatorUnitTests()
    ensures Add(2, 3) == 5 && Subtract(5, 3) == 2 && Multiply(4, 3) == 12
    ensures Divide(10, 2) == Success(5) && Divide(10, 5) == Success(2)
    ensures Divide(10, 0).Failure?
  {
    DivideIsTruncDiv(10, 2);
    DivideIsTruncDiv(10, 5);
  }

  /** The values the tests of the Python binding use; the binding forwards to
      the same C++ operations. */
  lemma CalculatorBindingTests()
    ensures Add(2, 3) == 5 && Add(-1, 1) == 0 && Add(10, 20) == 30
    ensures Subtract(5, 3) == 2 && Subtract(0, 5) == -5
    ensures Multiply(3, 4) == 12 && Multiply(-2, 3) == -6 && Multiply(0, 100) == 0
    ensures Divide(10, 2) == Success(5) && Divide(8, 2) == Success(4)
    ensures Divide(5, 0) == Failure(InvalidArgument("Division by zero"))
  {
    DivideIsTruncDiv(10, 2);
    DivideIsTruncDiv(8, 2);
  }

  /** The notifier unit test: with threshold 10, checking 5 leaves the flag
      clear and checking 15 raises it. */
  lemma NotifierUnitTest()
    ensures var n1 := Notifier.CheckAndNotify(Notifier.Create(10), 5);
            var n2 := Notifier.CheckAndNotify(n1, 15);
            !Notifier.WasNotified(n1) && Notifier.WasNotified(n2)
  {
  }

  /** The latch on a concrete run: after the flag is raised by 15, checking 1
      does not lower it. */
  lemma NotifierLatchExample()
    ensures var n0 := Notifier.Create(10);
            var n1 := Notifier.CheckAndNotify(n0, 5);
            var n2 := Notifier.CheckAndNotify(n1, 15);
            var n3 := Notifier.CheckAndNotify(n2, 1);
            !Notifier.WasNotified(n1) && Notifier.WasNotified(n2) && Notifier.WasNotified(n3)
  {
  }

  /** The demonstration driver: 15 + 8 = 23 does not exceed the threshold 100,
      15 * 8 = 120 does, and the log holds the three messages in order. */
  lemma DemoScenario()
    ensures var sum := Add(15, 8);
            var product := Multiply(15, 8);
            var n1 := Notifier.CheckAndNotify(Notifier.Create(100), sum);
            var n2 := Notifier.CheckAndNotify(n1, product);
            var l := Logger.LogAll(Logger.Create(),
                       ["Starting calculations", "Addition completed", "Multiplication completed"]);
            && sum == 23 && product == 120
            && !Notifier.WasNotified(n1) && Notifier.WasNotified(n2)
            && Logger.GetLogs(l) == ["Starting calculations", "Addition completed", "Multiplication completed"]
  {
  }

  /** The integration test: a stand-in calculator that always answers 4, a
      logger that records the message, and `Notifier(5)`, which 4 does not trip. */
  lemma IntegrationScenario()
    ensures var result: int32 := 4;
            var message := "Addition: 1 + 2 = 4";
            var l := Logger.Log(Logger.Create(), message);
            var n := Notifier.CheckAndNotify(Notifier.Create(5), result);
            var logs := Logger.GetLogs(l);
            && |logs| > 0 && logs[|logs| - 1] == message
            && !Notifier.WasNotified(n)
  {
  }
}
