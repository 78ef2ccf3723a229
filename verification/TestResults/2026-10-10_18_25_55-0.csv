TestResult.DisplayName,TestResult.Outcome,TestResult.Duration,TestResult.ResourceCount,RandomSeed
CodeMap.SpineEnd (correctness),Passed,00:00:00.7988029,1635698,0
CodeMap.SpineEnd (well-formedness),Passed,00:00:00.4106953,135100,0
